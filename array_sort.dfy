/**
 * `Array.prototype.sort(comparefn)` for a comparator function (section
 * 23.1.3.30 of ECMA-262, 2024 edition): the array is reordered in place into a
 * permutation of itself, and when the comparator is consistent on the values
 * being sorted the result is sorted and stable. The algorithm here is a
 * stable insertion sort; any stable sort gives the same result for such a
 * comparator (`StableSortUnique`).
 */
module ArraySort {

  /**
   * The conditions ECMA-262 puts on a consistent comparator, for one triple:
   * `=` (a zero result) is reflexive, symmetric and transitive, and `<` and
   * `>` (negative and positive results) are transitive.
   */
  ghost predicate ConsistentOn<T>(cmp: (T, T) -> int, a: T, b: T, c: T)
  {
    && cmp(a, a) == 0
    && (cmp(a, b) == 0 ==> cmp(b, a) == 0)
    && (cmp(a, b) == 0 && cmp(b, c) == 0 ==> cmp(a, c) == 0)
    && (cmp(a, b) < 0 && cmp(b, c) < 0 ==> cmp(a, c) < 0)
    && (cmp(a, b) > 0 && cmp(b, c) > 0 ==> cmp(a, c) > 0)
  }

  /** The comparator is consistent on every triple of values drawn from `D`. */
  ghost predicate ConsistentIn<T>(cmp: (T, T) -> int, D: set<T>)
  {
    forall a, b, c {:trigger ConsistentOn(cmp, a, b, c)} :: a in D && b in D && c in D ==> ConsistentOn(cmp, a, b, c)
  }

  /** The values occurring in `s`. */
  ghost function Elements<T>(s: seq<T>): set<T>
  {
    set x | x in s
  }

  /**
   * A consistent comparator for the array `s`: ECMA-262 asks for the
   * conditions only on the values being sorted.
   */
  ghost predicate ConsistentFor<T>(cmp: (T, T) -> int, s: seq<T>)
  {
    ConsistentIn(cmp, Elements(s))
  }

  /** Every element of `s` is drawn from `D`. */
  ghost predicate Within<T>(s: seq<T>, D: set<T>)
  {
    forall z :: z in s ==> z in D
  }

  lemma Reflexive<T>(cmp: (T, T) -> int, D: set<T>, a: T)
    requires ConsistentIn(cmp, D) && a in D
    ensures cmp(a, a) == 0
  {
    assert ConsistentOn(cmp, a, a, a);
  }

  /** A consistent comparator is antisymmetric: `a < b` exactly when `b > a`. */
  lemma Antisymmetric<T>(cmp: (T, T) -> int, D: set<T>, a: T, b: T)
    requires ConsistentIn(cmp, D) && a in D && b in D
    ensures cmp(a, b) < 0 <==> cmp(b, a) > 0
  {
    assert ConsistentOn(cmp, a, b, a);
    assert ConsistentOn(cmp, b, a, b);
  }

  /** Two elements equal to a third are equal to each other. */
  lemma SameClass<T>(cmp: (T, T) -> int, D: set<T>, x: T, y: T, e: T)
    requires ConsistentIn(cmp, D) && x in D && y in D && e in D
    ensures cmp(x, e) == 0 && cmp(y, e) == 0 ==> cmp(y, x) == 0
  {
    assert ConsistentOn(cmp, x, e, x);
    assert ConsistentOn(cmp, y, e, x);
  }

  /** "Not after" is transitive under a consistent comparator. */
  lemma NotAfterTransitive<T>(cmp: (T, T) -> int, D: set<T>, a: T, b: T, c: T)
    requires ConsistentIn(cmp, D) && a in D && b in D && c in D
    requires cmp(a, b) <= 0 && cmp(b, c) <= 0
    ensures cmp(a, c) <= 0
  {
    assert ConsistentOn(cmp, a, b, c);
    assert ConsistentOn(cmp, c, a, b);
    assert ConsistentOn(cmp, b, c, a);
    Antisymmetric(cmp, D, c, a);
    Antisymmetric(cmp, D, c, b);
    Antisymmetric(cmp, D, b, a);
  }

  /** Every element is not after every later one. */
  ghost predicate SortedBy<T>(s: seq<T>, cmp: (T, T) -> int)
  {
    forall i, j :: 0 <= i < j < |s| ==> cmp(s[i], s[j]) <= 0
  }

  /** The elements of `s` that compare equal to `e`, in their order in `s`. */
  function Equivalents<T>(s: seq<T>, e: T, cmp: (T, T) -> int): seq<T>
  {
    if |s| == 0 then []
    else Equivalents(s[..|s| - 1], e, cmp) + (if cmp(s[|s| - 1], e) == 0 then [s[|s| - 1]] else [])
  }

  /**
   * `r` is what a stable sort of `s` must produce: a permutation of `s`,
   * sorted, with the elements of each class of equal elements in their
   * original relative order.
   */
  ghost predicate IsStableSortOf<T>(r: seq<T>, s: seq<T>, cmp: (T, T) -> int)
  {
    && multiset(r) == multiset(s)
    && SortedBy(r, cmp)
    && forall e :: e in s ==> Equivalents(r, e, cmp) == Equivalents(s, e, cmp)
  }

  /**
   * Inserting `x` after a sorted prefix, passing only the elements that must
   * come after it (strictly greater), as the in-place loop does.
   */
  function InsertLast<T>(sorted: seq<T>, x: T, cmp: (T, T) -> int): seq<T>
  {
    if |sorted| == 0 then [x]
    else if cmp(sorted[|sorted| - 1], x) > 0 then
      InsertLast(sorted[..|sorted| - 1], x, cmp) + [sorted[|sorted| - 1]]
    else sorted + [x]
  }

  /** Insertion sort, inserting the elements from first to last. */
  function InsertionSorted<T>(s: seq<T>, cmp: (T, T) -> int): seq<T>
  {
    if |s| == 0 then []
    else InsertLast(InsertionSorted(s[..|s| - 1], cmp), s[|s| - 1], cmp)
  }

  lemma {:induction false} EquivalentsAppend<T>(a: seq<T>, b: seq<T>, e: T, cmp: (T, T) -> int)
    ensures Equivalents(a + b, e, cmp) == Equivalents(a, e, cmp) + Equivalents(b, e, cmp)
    decreases |b|
  {
    if |b| == 0 {
      assert a + b == a;
    } else {
      assert (a + b)[..|a + b| - 1] == a + b[..|b| - 1];
      EquivalentsAppend(a, b[..|b| - 1], e, cmp);
    }
  }

  lemma {:induction false} InsertLastPermutes<T>(sorted: seq<T>, x: T, cmp: (T, T) -> int)
    ensures multiset(InsertLast(sorted, x, cmp)) == multiset(sorted) + multiset{x}
  {
    if |sorted| > 0 && cmp(sorted[|sorted| - 1], x) > 0 {
      var init := sorted[..|sorted| - 1];
      InsertLastPermutes(init, x, cmp);
      assert sorted == init + [sorted[|sorted| - 1]];
    }
  }

  /** Insertion sort permutes its input, whatever the comparator. */
  lemma {:induction false} InsertionSortedPermutes<T>(s: seq<T>, cmp: (T, T) -> int)
    ensures multiset(InsertionSorted(s, cmp)) == multiset(s)
  {
    if |s| > 0 {
      InsertionSortedPermutes(s[..|s| - 1], cmp);
      InsertLastPermutes(InsertionSorted(s[..|s| - 1], cmp), s[|s| - 1], cmp);
      assert s == s[..|s| - 1] + [s[|s| - 1]];
    }
  }

  /** A permutation of a sequence drawn from `D` is drawn from `D`. */
  lemma PermutationWithin<T>(r: seq<T>, s: seq<T>, D: set<T>)
    requires multiset(r) == multiset(s) && Within(s, D)
    ensures Within(r, D)
  {
    forall z | z in r ensures z in D {
      assert z in multiset(r);
    }
  }

  /** A prefix of a sequence drawn from `D` is drawn from `D`. */
  lemma PrefixWithin<T>(s: seq<T>, n: nat, D: set<T>)
    requires n <= |s| && Within(s, D)
    ensures Within(s[..n], D)
  {
    forall z | z in s[..n] ensures z in D {
      var k :| 0 <= k < n && s[..n][k] == z;
      assert s[k] == z;
    }
  }

  lemma {:induction false} InsertLastSorted<T>(sorted: seq<T>, x: T, cmp: (T, T) -> int, D: set<T>)
    requires ConsistentIn(cmp, D) && Within(sorted, D) && x in D && SortedBy(sorted, cmp)
    ensures SortedBy(InsertLast(sorted, x, cmp), cmp)
  {
    if |sorted| > 0 {
      var n := |sorted| - 1;
      var y := sorted[n];
      assert y in sorted;
      if cmp(y, x) > 0 {
        var init := sorted[..n];
        SortedInit(sorted, n, cmp);
        PrefixWithin(sorted, n, D);
        InsertLastSorted(init, x, cmp, D);
        InsertLastBounded(init, x, y, cmp, D);
        SortedSnoc(InsertLast(init, x, cmp), y, cmp);
      } else {
        forall i | 0 <= i < |sorted| ensures cmp(sorted[i], x) <= 0 {
          if i < n {
            assert sorted[i] in sorted;
            NotAfterTransitive(cmp, D, sorted[i], y, x);
          }
        }
        SortedSnoc(sorted, x, cmp);
      }
    }
  }

  /** Appending an element that no element comes after keeps a sequence sorted. */
  lemma SortedSnoc<T>(r: seq<T>, y: T, cmp: (T, T) -> int)
    requires SortedBy(r, cmp) && forall i :: 0 <= i < |r| ==> cmp(r[i], y) <= 0
    ensures SortedBy(r + [y], cmp)
  {
  }

  /** An upper bound of the sorted elements and of `x` bounds their insertion. */
  lemma InsertLastBounded<T>(init: seq<T>, x: T, y: T, cmp: (T, T) -> int, D: set<T>)
    requires ConsistentIn(cmp, D) && x in D && y in D && cmp(y, x) > 0
    requires forall i :: 0 <= i < |init| ==> cmp(init[i], y) <= 0
    ensures forall i :: 0 <= i < |InsertLast(init, x, cmp)| ==> cmp(InsertLast(init, x, cmp)[i], y) <= 0
  {
    var r := InsertLast(init, x, cmp);
    InsertLastPermutes(init, x, cmp);
    Antisymmetric(cmp, D, x, y);
    forall i | 0 <= i < |r| ensures cmp(r[i], y) <= 0 {
      assert r[i] in multiset(r);
      if r[i] != x {
        assert r[i] in multiset(init);
        var k :| 0 <= k < |init| && init[k] == r[i];
      }
    }
  }

  lemma {:induction false} InsertLastStable<T>(sorted: seq<T>, x: T, e: T, cmp: (T, T) -> int, D: set<T>)
    requires ConsistentIn(cmp, D) && Within(sorted, D) && x in D && e in D
    ensures Equivalents(InsertLast(sorted, x, cmp), e, cmp) == Equivalents(sorted, e, cmp) + Equivalents([x], e, cmp)
  {
    if |sorted| == 0 {
      assert InsertLast(sorted, x, cmp) == [x];
    } else {
      var n := |sorted| - 1;
      var y := sorted[n];
      var init := sorted[..n];
      assert sorted == init + [y];
      assert y in sorted;
      if cmp(y, x) > 0 {
        PrefixWithin(sorted, n, D);
        InsertLastStable(init, x, e, cmp, D);
        EquivalentsAppend(InsertLast(init, x, cmp), [y], e, cmp);
        EquivalentsAppend(init, [y], e, cmp);
        // x and y are not both equal to e, since y comes strictly after x
        SameClass(cmp, D, x, y, e);
      } else {
        EquivalentsAppend(sorted, [x], e, cmp);
      }
    }
  }

  lemma {:induction false} InsertionSortedSorted<T>(s: seq<T>, cmp: (T, T) -> int, D: set<T>)
    requires ConsistentIn(cmp, D) && Within(s, D)
    ensures SortedBy(InsertionSorted(s, cmp), cmp)
  {
    if |s| > 0 {
      var init := s[..|s| - 1];
      PrefixWithin(s, |s| - 1, D);
      InsertionSortedSorted(init, cmp, D);
      InsertionSortedPermutes(init, cmp);
      PermutationWithin(InsertionSorted(init, cmp), init, D);
      assert s[|s| - 1] in s;
      InsertLastSorted(InsertionSorted(init, cmp), s[|s| - 1], cmp, D);
    }
  }

  lemma {:induction false} InsertionSortedStable<T>(s: seq<T>, e: T, cmp: (T, T) -> int, D: set<T>)
    requires ConsistentIn(cmp, D) && Within(s, D) && e in D
    ensures Equivalents(InsertionSorted(s, cmp), e, cmp) == Equivalents(s, e, cmp)
  {
    if |s| > 0 {
      var init := s[..|s| - 1];
      var x := s[|s| - 1];
      PrefixWithin(s, |s| - 1, D);
      InsertionSortedStable(init, e, cmp, D);
      InsertionSortedPermutes(init, cmp);
      PermutationWithin(InsertionSorted(init, cmp), init, D);
      assert x in s;
      InsertLastStable(InsertionSorted(init, cmp), x, e, cmp, D);
      assert s == init + [x];
      EquivalentsAppend(init, [x], e, cmp);
    }
  }

  /** Insertion sort under a comparator consistent on the input is a stable sort. */
  lemma InsertionSortedIsStableSort<T>(s: seq<T>, cmp: (T, T) -> int)
    requires ConsistentFor(cmp, s)
    ensures IsStableSortOf(InsertionSorted(s, cmp), s, cmp)
  {
    var D := Elements(s);
    InsertionSortedPermutes(s, cmp);
    InsertionSortedSorted(s, cmp, D);
    forall e | e in s ensures Equivalents(InsertionSorted(s, cmp), e, cmp) == Equivalents(s, e, cmp) {
      InsertionSortedStable(s, e, cmp, D);
    }
  }

  /**
   * A comparator consistent on the input determines the result of a stable
   * sort: two stable sorts of the same input are equal.
   */
  lemma StableSortUnique<T>(r1: seq<T>, r2: seq<T>, s: seq<T>, cmp: (T, T) -> int)
    requires ConsistentFor(cmp, s)
    requires IsStableSortOf(r1, s, cmp) && IsStableSortOf(r2, s, cmp)
    ensures r1 == r2
  {
    var D := Elements(s);
    PermutationWithin(r1, s, D);
    SortedPermutationsEqual(r1, r2, cmp, D);
  }

  /** In a sorted sequence, every element is not after the last one. */
  lemma NotAfterLast<T>(r: seq<T>, z: T, cmp: (T, T) -> int, D: set<T>)
    requires ConsistentIn(cmp, D) && Within(r, D) && SortedBy(r, cmp) && z in multiset(r)
    ensures cmp(z, r[|r| - 1]) <= 0
  {
    var k :| 0 <= k < |r| && r[k] == z;
    Reflexive(cmp, D, z);
  }

  /** The class of the last element, in any sequence, ends in that element. */
  lemma LastOfClass<T>(r: seq<T>, e: T, cmp: (T, T) -> int)
    requires |r| > 0 && cmp(r[|r| - 1], e) == 0
    ensures |Equivalents(r, e, cmp)| > 0
    ensures Equivalents(r, e, cmp)[|Equivalents(r, e, cmp)| - 1] == r[|r| - 1]
  {
  }

  /** Sequences with the same classes, ending in elements each not after the other, end in the same element. */
  lemma SameLast<T>(r1: seq<T>, r2: seq<T>, cmp: (T, T) -> int, D: set<T>)
    requires ConsistentIn(cmp, D) && |r1| > 0 && |r2| > 0 && r1[|r1| - 1] in D && r2[|r2| - 1] in D
    requires cmp(r1[|r1| - 1], r2[|r2| - 1]) <= 0 && cmp(r2[|r2| - 1], r1[|r1| - 1]) <= 0
    requires Equivalents(r1, r1[|r1| - 1], cmp) == Equivalents(r2, r1[|r1| - 1], cmp)
    ensures r1[|r1| - 1] == r2[|r2| - 1]
  {
    var a, b := r1[|r1| - 1], r2[|r2| - 1];
    Antisymmetric(cmp, D, a, b);
    Reflexive(cmp, D, a);
    Reflexive(cmp, D, b);
    SameClass(cmp, D, a, b, b);
    LastOfClass(r1, a, cmp);
    LastOfClass(r2, a, cmp);
  }

  lemma EquivalentsSnoc<T>(i: seq<T>, a: T, e: T, cmp: (T, T) -> int)
    ensures Equivalents(i + [a], e, cmp) == Equivalents(i, e, cmp) + (if cmp(a, e) == 0 then [a] else [])
  {
    assert (i + [a])[..|i|] == i;
  }

  lemma CancelRight<T>(t1: seq<T>, t2: seq<T>, x: seq<T>)
    requires t1 + x == t2 + x
    ensures t1 == t2
  {
    assert |t1| == |t2|;
    assert t1 == (t1 + x)[..|t1|];
    assert t2 == (t2 + x)[..|t2|];
  }

  /** Dropping a common last element keeps the classes equal. */
  lemma SameInitClasses<T>(i1: seq<T>, i2: seq<T>, a: T, cmp: (T, T) -> int, D: set<T>)
    requires forall e :: e in D ==> Equivalents(i1 + [a], e, cmp) == Equivalents(i2 + [a], e, cmp)
    ensures forall e :: e in D ==> Equivalents(i1, e, cmp) == Equivalents(i2, e, cmp)
  {
    forall e | e in D ensures Equivalents(i1, e, cmp) == Equivalents(i2, e, cmp) {
      EquivalentsSnoc(i1, a, e, cmp);
      EquivalentsSnoc(i2, a, e, cmp);
      CancelRight(Equivalents(i1, e, cmp), Equivalents(i2, e, cmp), if cmp(a, e) == 0 then [a] else []);
    }
  }

  /** A prefix of a sorted sequence is sorted. */
  lemma SortedInit<T>(r: seq<T>, n: nat, cmp: (T, T) -> int)
    requires SortedBy(r, cmp) && n <= |r|
    ensures SortedBy(r[..n], cmp)
  {
  }

  lemma MultisetCancel<T>(m1: multiset<T>, m2: multiset<T>, a: T)
    requires m1 + multiset{a} == m2 + multiset{a}
    ensures m1 == m2
  {
    assert forall z :: m1[z] == (m1 + multiset{a})[z] - multiset{a}[z];
    assert forall z :: m2[z] == (m2 + multiset{a})[z] - multiset{a}[z];
  }

  /** Equal-length sequences with the same multiset, sortedness and classes, less a common last element, keep them. */
  lemma DropLast<T>(r1: seq<T>, r2: seq<T>, cmp: (T, T) -> int, D: set<T>)
    requires |r1| == |r2| > 0 && r1[|r1| - 1] == r2[|r2| - 1] && Within(r1, D)
    requires multiset(r1) == multiset(r2) && SortedBy(r1, cmp) && SortedBy(r2, cmp)
    requires forall e :: e in D ==> Equivalents(r1, e, cmp) == Equivalents(r2, e, cmp)
    ensures var i1, i2 := r1[..|r1| - 1], r2[..|r2| - 1];
      && multiset(i1) == multiset(i2) && SortedBy(i1, cmp) && SortedBy(i2, cmp) && Within(i1, D)
      && forall e :: e in D ==> Equivalents(i1, e, cmp) == Equivalents(i2, e, cmp)
  {
    var n := |r1| - 1;
    var a, i1, i2 := r1[n], r1[..n], r2[..n];
    assert r1 == i1 + [a] && r2 == i2 + [a];
    assert multiset(r1) == multiset(i1) + multiset{a};
    assert multiset(r2) == multiset(i2) + multiset{a};
    MultisetCancel(multiset(i1), multiset(i2), a);
    SameInitClasses(i1, i2, a, cmp, D);
    SortedInit(r1, n, cmp);
    SortedInit(r2, n, cmp);
    PrefixWithin(r1, n, D);
  }

  lemma {:induction false} SortedPermutationsEqual<T>(r1: seq<T>, r2: seq<T>, cmp: (T, T) -> int, D: set<T>)
    requires ConsistentIn(cmp, D) && Within(r1, D)
    requires multiset(r1) == multiset(r2) && SortedBy(r1, cmp) && SortedBy(r2, cmp)
    requires forall e :: e in D ==> Equivalents(r1, e, cmp) == Equivalents(r2, e, cmp)
    ensures r1 == r2
    decreases |r1|
  {
    assert |r1| == |multiset(r1)| == |multiset(r2)| == |r2|;
    if |r1| > 0 {
      var n := |r1| - 1;
      PermutationWithin(r2, r1, D);
      assert r1[n] in r1 && r2[n] in r2;
      assert r1[n] in multiset(r2) && r2[n] in multiset(r1);
      NotAfterLast(r1, r2[n], cmp, D);
      NotAfterLast(r2, r1[n], cmp, D);
      SameLast(r1, r2, cmp, D);
      DropLast(r1, r2, cmp, D);
      SortedPermutationsEqual(r1[..n], r2[..n], cmp, D);
      SameInitAndLast(r1, r2);
    }
  }

  lemma SameInitAndLast<T>(r1: seq<T>, r2: seq<T>)
    requires |r1| == |r2| > 0 && r1[|r1| - 1] == r2[|r2| - 1]
    requires r1[..|r1| - 1] == r2[..|r2| - 1]
    ensures r1 == r2
  {
    assert r1 == r1[..|r1| - 1] + [r1[|r1| - 1]];
    assert r2 == r2[..|r2| - 1] + [r2[|r2| - 1]];
  }

  /** Sorting one more element inserts it into the sorted prefix. */
  lemma InsertionSortedSnoc<T>(s: seq<T>, i: nat, cmp: (T, T) -> int)
    requires i < |s|
    ensures InsertionSorted(s[..i + 1], cmp) == InsertLast(InsertionSorted(s[..i], cmp), s[i], cmp)
  {
    assert s[..i + 1][..i] == s[..i];
  }

  /**
   * `x` goes right after the last element not after it: in front of the
   * strictly greater tail `p[j..]`.
   */
  lemma {:induction false} InsertLastAt<T>(p: seq<T>, j: nat, x: T, cmp: (T, T) -> int)
    requires j <= |p|
    requires j == 0 || cmp(p[j - 1], x) <= 0
    requires forall k :: j <= k < |p| ==> cmp(p[k], x) > 0
    ensures InsertLast(p, x, cmp) == p[..j] + [x] + p[j..]
    decreases |p|
  {
    var n := |p| - 1;
    if |p| == j {
      assert p[..j] == p && p[j..] == [];
    } else {
      InsertLastAt(p[..n], j, x, cmp);
      assert p[..n][..j] == p[..j];
      assert p[..n][j..] + [p[n]] == p[j..];
    }
  }

  /** When the inner loop stops, `x` goes into the gap it has shifted open. */
  lemma InsertLastGap<T>(p: seq<T>, j: nat, x: T, q: seq<T>, cmp: (T, T) -> int)
    requires j <= |p| && |q| == |p| + 1
    requires j == 0 || cmp(p[j - 1], x) <= 0
    requires forall k :: j <= k < |p| ==> cmp(p[k], x) > 0
    requires forall k :: 0 <= k < j ==> q[k] == p[k]
    requires q[j] == x
    requires forall k :: j < k < |q| ==> q[k] == p[k - 1]
    ensures q == InsertLast(p, x, cmp)
  {
    InsertLastAt(p, j, x, cmp);
    assert q == p[..j] + [x] + p[j..];
  }

  /**
   * One step of the sort: the element at `i` is shifted left past the
   * elements of `a[..i]` that must come after it.
   */
  method InsertIntoPrefix<T>(a: array<T>, i: nat, cmp: (T, T) -> int)
    requires i < a.Length
    modifies a
    ensures a[..i + 1] == InsertLast(old(a[..i]), old(a[i]), cmp)
    ensures a[i + 1..] == old(a[i + 1..])
  {
    var x := a[i];
    ghost var p := a[..i];
    var j := i;
    while j > 0 && cmp(a[j - 1], x) > 0
      invariant 0 <= j <= i
      invariant forall k :: 0 <= k < j ==> a[k] == p[k]
      invariant forall k :: j < k <= i ==> a[k] == p[k - 1]
      invariant forall k :: i < k < a.Length ==> a[k] == old(a[k])
      invariant forall k :: j <= k < i ==> cmp(p[k], x) > 0
    {
      a[j] := a[j - 1];
      j := j - 1;
    }
    a[j] := x;
    InsertLastGap(p, j, x, a[..i + 1], cmp);
  }

  /**
   * `comparefn` given: sorts `a` in place, stably, inserting each element
   * into the sorted prefix before it.
   */
  method SortInPlace<T>(a: array<T>, cmp: (T, T) -> int)
    modifies a
    ensures a[..] == InsertionSorted(old(a[..]), cmp)
  {
    ghost var original := a[..];
    var i := 0;
    while i < a.Length
      invariant 0 <= i <= a.Length
      invariant a[..i] == InsertionSorted(original[..i], cmp)
      invariant a[i..] == original[i..]
    {
      InsertIntoPrefix(a, i, cmp);
      InsertionSortedSnoc(original, i, cmp);
      assert a[i + 1..] == original[i + 1..] by {
        assert original[i..][1..] == original[i + 1..];
      }
      i := i + 1;
    }
    assert a[..] == a[..a.Length];
    assert original == original[..a.Length];
  }
}
