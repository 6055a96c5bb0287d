/**
 * The statistics of src/exam/statistics.rs: the mean, the count of passed
 * students and the percentile engine.
 */
module Statistics {
  import opened Wrappers
  import opened StudentRecord

  // ---------------------------------------------------------------------------
  // Grades and folds over them
  // ---------------------------------------------------------------------------

  /** The grades of a list of students, in list order. */
  function Grades(s: seq<Student>): (g: seq<real>)
    ensures |g| == |s|
    ensures forall i :: 0 <= i < |s| ==> g[i] == s[i].grade
  {
    seq(|s|, i requires 0 <= i < |s| => s[i].grade)
  }

  /** The running sum of a fold from the left, starting at 0. */
  function Sum(g: seq<real>): real
  {
    if g == [] then 0.0 else Sum(g[..|g| - 1]) + g[|g| - 1]
  }

  /** A sum of grades that are all non-negative is non-negative. */
  lemma {:induction false} SumNonNegative(g: seq<real>)
    requires forall i :: 0 <= i < |g| ==> g[i] >= 0.0
    ensures Sum(g) >= 0.0
  {
    if g != [] {
      var init := g[..|g| - 1];
      assert forall i :: 0 <= i < |init| ==> init[i] == g[i];
      SumNonNegative(init);
    }
  }

  /**
   * `mean` over the students' grades `Grades(s)`: the fold's sum divided by
   * its count, and 0 when there is nothing to count.
   */
  function Mean(g: seq<real>): (m: real)
    ensures |g| == 0 ==> m == 0.0
    ensures |g| > 0 ==> m * (|g| as real) == Sum(g)
  {
    var sum, count := Sum(g), |g| as real;
    if count == 0.0 then 0.0 else sum / count
  }

  /** 2^32: `as u32` keeps a count modulo this. */
  const U32: nat := 0x1_0000_0000

  /** `n as u32`: the value modulo 2^32. */
  function CastU32(n: nat): (r: nat)
    ensures r < U32
    ensures n < U32 ==> r == n
  {
    n % U32
  }

  /** How many students reached the fixed pass mark 5, as `filter(..).count()` finds them. */
  function PassedCount(s: seq<Student>): (r: nat)
    ensures r <= |s|
    ensures r == |s| <==> forall i :: 0 <= i < |s| ==> s[i].grade >= 5.0
    ensures r == 0 <==> forall i :: 0 <= i < |s| ==> s[i].grade < 5.0
  {
    if s == [] then 0
    else
      var init := s[..|s| - 1];
      assert forall i :: 0 <= i < |init| ==> init[i] == s[i];
      PassedCount(init) + (if s[|s| - 1].grade >= 5.0 then 1 else 0)
  }

  /**
   * `passed_students`: that count cast to `u32`, so it is the count itself
   * whenever there are fewer than 2^32 students.
   */
  function PassedStudents(s: seq<Student>): (r: nat)
    ensures r < U32 && r <= |s|
    ensures |s| < U32 ==> r == PassedCount(s)
    ensures |s| < U32 ==> (r == |s| <==> forall i :: 0 <= i < |s| ==> s[i].grade >= 5.0)
    ensures |s| < U32 ==> (r == 0 <==> forall i :: 0 <= i < |s| ==> s[i].grade < 5.0)
  {
    CastU32(PassedCount(s))
  }

  /**
   * The largest grade, as `max_by(..).unwrap_or(0.0)` finds it: 0 for an empty
   * list, otherwise a grade of the list that no other grade exceeds.
   */
  function MaxGrade(g: seq<real>): (m: real)
    ensures g == [] ==> m == 0.0
    ensures g != [] ==> m in g && forall i :: 0 <= i < |g| ==> g[i] <= m
  {
    if g == [] then 0.0
    else if |g| == 1 then g[0]
    else
      var rest := MaxGrade(g[..|g| - 1]);
      if g[|g| - 1] >= rest then g[|g| - 1] else rest
  }

  /** The smallest grade of a non-empty list. */
  function MinGrade(g: seq<real>): (m: real)
    requires g != []
    ensures m in g && forall i :: 0 <= i < |g| ==> m <= g[i]
  {
    if |g| == 1 then g[0]
    else
      var rest := MinGrade(g[..|g| - 1]);
      if g[|g| - 1] <= rest then g[|g| - 1] else rest
  }

  /** A sum of values that all lie in [lo, hi] lies between n*lo and n*hi. */
  lemma {:induction false} SumBounds(g: seq<real>, lo: real, hi: real)
    requires forall i :: 0 <= i < |g| ==> lo <= g[i] <= hi
    ensures (|g| as real) * lo <= Sum(g) <= (|g| as real) * hi
  {
    if g != [] {
      SumBounds(g[..|g| - 1], lo, hi);
    }
  }

  /** Dividing by a positive count keeps a bound that holds after multiplying by it. */
  lemma DivideBounds(sum: real, n: real, lo: real, hi: real)
    requires n > 0.0 && n * lo <= sum <= n * hi
    ensures lo <= sum / n <= hi
  {
  }

  /** The mean of a non-empty list lies between its smallest and its largest grade. */
  lemma MeanBetweenMinAndMax(g: seq<real>)
    requires |g| > 0
    ensures MinGrade(g) <= Mean(g) <= MaxGrade(g)
  {
    MeanBounds(g, MinGrade(g), MaxGrade(g));
  }

  /** The mean of grades that all lie in [lo, hi] lies in [lo, hi]. */
  lemma MeanBounds(g: seq<real>, lo: real, hi: real)
    requires |g| > 0
    requires forall i :: 0 <= i < |g| ==> lo <= g[i] <= hi
    ensures lo <= Mean(g) <= hi
  {
    SumBounds(g, lo, hi);
    assert Mean(g) == Sum(g) / (|g| as real);
    DivideBounds(Sum(g), |g| as real, lo, hi);
  }

  /** The five students of the unit tests in src/exam/statistics.rs. */
  const TestStudents: seq<Student> := [
    NewStudent("Joan Beltrán Peris", 4.6),
    NewStudent("Jose Abad Martínez", 3.6),
    NewStudent("David Jiménez Hidalgo", 7.94),
    NewStudent("Rubén Martínez Olgado", 8.96),
    NewStudent("Jorge Gómez Fuentes", 6.5)
  ]

  /** The unit test of `mean`: 6.32. */
  lemma MeanExample()
    ensures Mean(Grades(TestStudents)) == 6.32
  {
    var g := Grades(TestStudents);
    assert g == [4.6, 3.6, 7.94, 8.96, 6.5];
    assert Sum([4.6]) == 4.6 by { assert [4.6][..0] == []; }
    assert Sum([4.6, 3.6]) == 8.2 by { assert [4.6, 3.6][..1] == [4.6]; }
    assert Sum([4.6, 3.6, 7.94]) == 16.14 by { assert [4.6, 3.6, 7.94][..2] == [4.6, 3.6]; }
    assert Sum([4.6, 3.6, 7.94, 8.96]) == 25.1 by { assert [4.6, 3.6, 7.94, 8.96][..3] == [4.6, 3.6, 7.94]; }
    assert g[..4] == [4.6, 3.6, 7.94, 8.96];
  }

  /** The unit test of `passed_students`: 3. */
  lemma PassedStudentsExample()
    ensures PassedStudents(TestStudents) == 3
  {
    var s := TestStudents;
    assert s[..4][..3] == s[..3] && s[..3][..2] == s[..2] && s[..2][..1] == s[..1] && s[..1][..0] == [];
    assert PassedCount(s) == 3;
  }

  // ---------------------------------------------------------------------------
  // The percentile engine
  // ---------------------------------------------------------------------------

  /** How many grades of the list are strictly below x. */
  function CountBelow(g: seq<real>, x: real): (c: nat)
    ensures c <= |g|
  {
    if g == [] then 0 else CountBelow(g[1..], x) + (if g[0] < x then 1 else 0)
  }

  /**
   * The percentile the engine assigns to grade x of the list g: 100 for the
   * highest grade, otherwise k/(n-1)*100 where k is the number of grades below
   * x, which is the position of the first grade of x's tie group in ascending
   * order.
   */
  function Percentile(g: seq<real>, x: real): (p: real)
    requires x in g
    ensures x == MaxGrade(g) ==> p == 100.0
    ensures |g| == 1 ==> p == 100.0
    ensures 0.0 <= p
  {
    if x == MaxGrade(g) then 100.0
    else
      assert |g| >= 2;
      (CountBelow(g, x) as real) / ((|g| - 1) as real) * 100.0
  }

  /**
   * The list after `calculate_percentiles`: every student keeps name and grade
   * and gets the percentile of its grade among all grades of the list.
   */
  function WithPercentiles(s: seq<Student>): (r: seq<Student>)
    ensures |r| == |s|
    ensures forall i :: 0 <= i < |s| ==> r[i].name == s[i].name && r[i].grade == s[i].grade
    ensures forall i, j :: 0 <= i < |s| && 0 <= j < |s| && s[i].grade == s[j].grade ==>
              r[i].percentile == r[j].percentile
    ensures forall i :: 0 <= i < |s| && s[i].grade == MaxGrade(Grades(s)) ==> r[i].percentile == 100.0
  {
    var g := Grades(s);
    seq(|s|, i requires 0 <= i < |s| => s[i].(percentile := Percentile(g, s[i].grade)))
  }

  /** Counting below x is additive over concatenation. */
  lemma {:induction false} CountBelowAppend(a: seq<real>, b: seq<real>, x: real)
    ensures CountBelow(a + b, x) == CountBelow(a, x) + CountBelow(b, x)
  {
    if a != [] {
      assert (a + b)[0] == a[0] && (a + b)[1..] == a[1..] + b;
      CountBelowAppend(a[1..], b, x);
    } else {
      assert a + b == b;
    }
  }

  /** Removing the element at position k from a list lowers the count by one exactly when that element is below x. */
  lemma CountBelowRemove(b: seq<real>, k: nat, x: real)
    requires k < |b|
    ensures CountBelow(b, x) == CountBelow(b[..k] + b[k + 1..], x) + (if b[k] < x then 1 else 0)
  {
    assert b == b[..k] + ([b[k]] + b[k + 1..]);
    CountBelowAppend(b[..k], [b[k]] + b[k + 1..], x);
    CountBelowAppend([b[k]], b[k + 1..], x);
    CountBelowAppend(b[..k], b[k + 1..], x);
  }

  /** Removing the element at position k from a list removes one copy of it from the multiset. */
  lemma MultisetRemove<T>(b: seq<T>, k: nat)
    requires k < |b|
    ensures multiset(b[..k] + b[k + 1..]) == multiset(b) - multiset{b[k]}
  {
    assert b == b[..k] + [b[k]] + b[k + 1..];
  }

  /** The first element of a list occurs in any permutation of it, and removing it from both keeps them permutations. */
  lemma RemoveSame(a: seq<real>, b: seq<real>) returns (k: nat)
    requires multiset(a) == multiset(b) && a != []
    ensures k < |b| && b[k] == a[0]
    ensures multiset(a[1..]) == multiset(b[..k] + b[k + 1..])
  {
    assert a[0] in multiset(b);
    assert a[0] in b;
    k :| 0 <= k < |b| && b[k] == a[0];
    MultisetRemove(b, k);
    assert a == [a[0]] + a[1..];
    assert multiset(a) == multiset{a[0]} + multiset(a[1..]);
  }

  /** The count below x depends only on the multiset of grades, not on their order. */
  lemma {:induction false} CountBelowPermutation(a: seq<real>, b: seq<real>, x: real)
    requires multiset(a) == multiset(b)
    ensures CountBelow(a, x) == CountBelow(b, x)
    decreases |a|
  {
    if a == [] {
      assert |b| == |multiset(b)| == 0;
    } else {
      var k := RemoveSame(a, b);
      CountBelowPermutation(a[1..], b[..k] + b[k + 1..], x);
      CountBelowRemove(b, k, x);
    }
  }

  /** The highest grade depends only on the multiset of grades. */
  lemma MaxGradePermutation(a: seq<real>, b: seq<real>)
    requires multiset(a) == multiset(b)
    ensures MaxGrade(a) == MaxGrade(b)
  {
    if a != [] {
      assert a[0] in multiset(b);
      var ma, mb := MaxGrade(a), MaxGrade(b);
      assert ma in multiset(b) && mb in multiset(a);
    } else {
      assert |b| == |multiset(b)| == 0;
    }
  }

  /** If every grade is below x, all of them are counted; if none is, none is. */
  lemma {:induction false} CountBelowAllOrNone(g: seq<real>, x: real)
    ensures (forall i :: 0 <= i < |g| ==> g[i] < x) ==> CountBelow(g, x) == |g|
    ensures (forall i :: 0 <= i < |g| ==> g[i] >= x) ==> CountBelow(g, x) == 0
  {
    if g != [] {
      CountBelowAllOrNone(g[1..], x);
    }
  }

  /**
   * In an ascending list, the count below the grade at position k is k when k
   * is the first position of its tie group.
   */
  lemma CountBelowAtGroupStart(t: seq<real>, k: nat)
    requires forall a, b :: 0 <= a < b < |t| ==> t[a] <= t[b]
    requires k < |t|
    requires k == 0 || t[k - 1] != t[k]
    ensures CountBelow(t, t[k]) == k
  {
    var x, lower, upper := t[k], t[..k], t[k..];
    assert t == lower + upper;
    CountBelowAppend(lower, upper, x);
    BeforeGroupStart(t, k);
    FromGroupStart(t, k);
    CountBelowAllOrNone(lower, x);
    CountBelowAllOrNone(upper, x);
  }

  /** In an ascending list, every grade before the first of a tie group is below it. */
  lemma BeforeGroupStart(t: seq<real>, k: nat)
    requires forall a, b :: 0 <= a < b < |t| ==> t[a] <= t[b]
    requires k < |t|
    requires k == 0 || t[k - 1] != t[k]
    ensures forall i :: 0 <= i < |t[..k]| ==> t[..k][i] < t[k]
  {
    forall i | 0 <= i < k ensures t[..k][i] < t[k] {
      assert t[..k][i] == t[i] <= t[k - 1];
    }
  }

  /** In an ascending list, no grade from position k on is below the grade at k. */
  lemma FromGroupStart(t: seq<real>, k: nat)
    requires forall a, b :: 0 <= a < b < |t| ==> t[a] <= t[b]
    requires k < |t|
    ensures forall i :: 0 <= i < |t[k..]| ==> t[k..][i] >= t[k]
  {
    forall i | 0 <= i < |t| - k ensures t[k..][i] >= t[k] {
      assert t[k..][i] == t[k + i];
    }
  }

  /** Counting below is monotone in the bound, and strict when a lower grade of the list lies in between. */
  lemma {:induction false} CountBelowMonotone(g: seq<real>, x: real, y: real)
    requires x <= y
    ensures CountBelow(g, x) <= CountBelow(g, y)
    ensures x < y && x in g ==> CountBelow(g, x) < CountBelow(g, y)
  {
    if g != [] {
      CountBelowMonotone(g[1..], x, y);
      if x in g && g[0] != x {
        assert x in g[1..];
      }
    }
  }

  /** A fraction k/d with 0 <= k < d lies in [0, 1); a larger numerator gives a larger fraction. */
  lemma Fraction(k: real, l: real, d: real)
    requires 0.0 <= k < d && 0.0 <= l
    ensures 0.0 <= k / d < 1.0
    ensures k < l ==> k / d < l / d
  {
  }

  /** The highest grade of a list is not below any of its grades, so at most n-1 grades are below it. */
  lemma CountBelowMax(g: seq<real>)
    requires g != []
    ensures CountBelow(g, MaxGrade(g)) <= |g| - 1
  {
    var m := MaxGrade(g);
    var i :| 0 <= i < |g| && g[i] == m;
    CountBelowRemove(g, i, m);
  }

  /** A grade that is not the highest gets a percentile in [0, 100). */
  lemma PercentileBelowHundred(g: seq<real>, x: real)
    requires x in g && x != MaxGrade(g)
    ensures 0.0 <= Percentile(g, x) < 100.0
  {
    var m := MaxGrade(g);
    CountBelowMonotone(g, x, m);
    CountBelowMax(g);
    Fraction(CountBelow(g, x) as real, 0.0, (|g| - 1) as real);
  }

  /** Every percentile lies in [0, 100]; exactly the highest grade gets 100. */
  lemma PercentileRange(g: seq<real>, x: real)
    requires x in g
    ensures 0.0 <= Percentile(g, x) <= 100.0
    ensures Percentile(g, x) == 100.0 <==> x == MaxGrade(g)
  {
    if x != MaxGrade(g) {
      PercentileBelowHundred(g, x);
    }
  }

  /** A strictly higher grade gets a strictly higher percentile. */
  lemma PercentileStrictlyMonotone(g: seq<real>, x: real, y: real)
    requires x in g && y in g && x < y
    ensures Percentile(g, x) < Percentile(g, y)
  {
    var m := MaxGrade(g);
    PercentileBelowHundred(g, x);
    if y != m {
      CountBelowMonotone(g, x, y);
      CountBelowMonotone(g, y, m);
      CountBelowMax(g);
      Fraction(CountBelow(g, x) as real, CountBelow(g, y) as real, (|g| - 1) as real);
    }
  }

  /** Percentiles depend on the multiset of grades only: reordering the list changes none. */
  lemma PercentilePermutation(a: seq<real>, b: seq<real>, x: real)
    requires multiset(a) == multiset(b) && x in a
    ensures x in b && Percentile(a, x) == Percentile(b, x)
  {
    assert x in multiset(b);
    MaxGradePermutation(a, b);
    CountBelowPermutation(a, b, x);
    assert |a| == |multiset(a)| == |b|;
  }

  /** A single student always gets 100, so the n-1 = 0 division is never reached. */
  lemma SingleStudentGetsHundred(x: Student)
    ensures WithPercentiles([x])[0].percentile == 100.0
  {
    assert Grades([x]) == [x.grade];
  }

  /** The scenario of five students 4.65, 3.6, 7.94, 5.03, 1.96: percentiles 50, 25, 100, 75, 0. */
  lemma FiveStudentScenario()
    ensures var g := [4.65, 3.6, 7.94, 5.03, 1.96];
      Percentile(g, 4.65) == 50.0 && Percentile(g, 3.6) == 25.0 && Percentile(g, 7.94) == 100.0 &&
      Percentile(g, 5.03) == 75.0 && Percentile(g, 1.96) == 0.0
  {
    var g := [4.65, 3.6, 7.94, 5.03, 1.96];
    assert MaxGrade(g) == 7.94 by {
      assert g[..4] == [4.65, 3.6, 7.94, 5.03];
      assert g[..4][..3] == [4.65, 3.6, 7.94];
      assert g[..4][..3][..2] == [4.65, 3.6];
      assert g[..4][..3][..2][..1] == [4.65];
    }
    assert g[1..] == [3.6, 7.94, 5.03, 1.96];
    assert g[1..][1..] == [7.94, 5.03, 1.96];
    assert g[1..][1..][1..] == [5.03, 1.96];
    assert g[1..][1..][1..][1..] == [1.96];
  }

  // ---------------------------------------------------------------------------
  // `calculate_percentiles`, in place
  // ---------------------------------------------------------------------------

  /** The indices 0, 1, ..., n-1. */
  function Range(n: nat): (r: seq<nat>)
    ensures |r| == n && forall i :: 0 <= i < n ==> r[i] == i
  {
    seq(n, i requires 0 <= i < n => i)
  }

  /** Keys that ascend on [0, i] except possibly at position j. */
  ghost predicate SortedExceptAt(keys: seq<real>, i: nat, j: nat)
    requires i < |keys|
  {
    forall a, b :: 0 <= a < b <= i && b != j ==> keys[a] <= keys[b]
  }

  /** Swapping an out-of-order pair at j-1, j moves the possible gap one place to the left. */
  lemma SwapMovesGap(keys: seq<real>, i: nat, j: nat)
    requires 0 < j <= i < |keys|
    requires SortedExceptAt(keys, i, j) && keys[j - 1] > keys[j]
    ensures SortedExceptAt(keys[j - 1 := keys[j]][j := keys[j - 1]], i, j - 1)
  {
    var swapped := keys[j - 1 := keys[j]][j := keys[j - 1]];
    forall a, b | 0 <= a < b <= i && b != j - 1
      ensures swapped[a] <= swapped[b]
    {
      if b == j {
        if a < j - 1 {
          assert keys[a] <= keys[j - 1];
        }
      } else if a == j {
        assert keys[j - 1] <= keys[b];
      } else if a == j - 1 {
        assert keys[j] <= keys[b];
      } else {
        assert keys[a] <= keys[b];
      }
    }
  }

  /** When the gap reaches the front, or the pair at the gap is in order, [0, i] ascends. */
  lemma GapClosed(keys: seq<real>, i: nat, j: nat)
    requires j <= i < |keys|
    requires SortedExceptAt(keys, i, j) && (j == 0 || keys[j - 1] <= keys[j])
    ensures forall a, b :: 0 <= a < b <= i ==> keys[a] <= keys[b]
  {
    forall a, b | 0 <= a < b <= i
      ensures keys[a] <= keys[b]
    {
      if b == j {
        assert a <= j - 1;
        if a < j - 1 {
          assert keys[a] <= keys[j - 1];
        }
      }
    }
  }

  /** Swaps the adjacent indices at j-1 and j, and the grades that follow them. */
  method SwapAdjacent(indices: array<nat>, j: nat, ghost keys: seq<real>) returns (ghost keys': seq<real>)
    requires 0 < j < indices.Length == |keys|
    modifies indices
    ensures indices[..] == old(indices[..])[j - 1 := old(indices[j])][j := old(indices[j - 1])]
    ensures keys' == keys[j - 1 := keys[j]][j := keys[j - 1]]
    ensures multiset(indices[..]) == old(multiset(indices[..])) && multiset(keys') == multiset(keys)
  {
    indices[j - 1], indices[j] := indices[j], indices[j - 1];
    keys' := keys[j - 1 := keys[j]][j := keys[j - 1]];
  }

  /**
   * One pass of the insertion sort: moves the index at position i to the left
   * past every index whose grade is larger. The ghost list `keys` follows the
   * grades that the indices point to.
   */
  method InsertIndex(indices: array<nat>, grades: seq<real>, i: nat, ghost keys: seq<real>)
    returns (ghost keys': seq<real>)
    requires i < indices.Length == |grades| == |keys|
    requires forall k :: 0 <= k < indices.Length ==> indices[k] < |grades| && keys[k] == grades[indices[k]]
    requires forall a, b :: 0 <= a < b < i ==> keys[a] <= keys[b]
    modifies indices
    ensures |keys'| == |keys|
    ensures forall k :: 0 <= k < indices.Length ==> indices[k] < |grades| && keys'[k] == grades[indices[k]]
    ensures forall a, b :: 0 <= a < b <= i ==> keys'[a] <= keys'[b]
    ensures multiset(indices[..]) == old(multiset(indices[..]))
    ensures multiset(keys') == multiset(keys)
  {
    keys' := keys;
    var j := i;
    while j > 0 && grades[indices[j - 1]] > grades[indices[j]]
      invariant 0 <= j <= i
      invariant |keys'| == |keys|
      invariant forall k :: 0 <= k < indices.Length ==> indices[k] < |grades| && keys'[k] == grades[indices[k]]
      invariant SortedExceptAt(keys', i, j)
      invariant multiset(indices[..]) == old(multiset(indices[..]))
      invariant multiset(keys') == multiset(keys)
    {
      SwapMovesGap(keys', i, j);
      keys' := SwapAdjacent(indices, j, keys');
      j := j - 1;
    }
    GapClosed(keys', i, j);
  }

  /**
   * Builds the index vector 0..n and sorts it in place by grade, ascending.
   * The result is a permutation of the indices, its grades ascend, and the grades
   * it visits are a permutation of the given ones.
   */
  method SortIndicesByGrade(grades: seq<real>) returns (order: seq<nat>)
    ensures |order| == |grades|
    ensures forall k :: 0 <= k < |order| ==> order[k] < |grades|
    ensures multiset(order) == multiset(Range(|grades|))
    ensures forall a, b :: 0 <= a < b < |order| ==> grades[order[a]] <= grades[order[b]]
    ensures multiset(seq(|order|, k requires 0 <= k < |order| => grades[order[k]])) == multiset(grades)
  {
    var n := |grades|;
    var indices := new nat[n](i => i);
    ghost var keys := grades;
    assert indices[..] == Range(n);
    var i := 0;
    while i < n
      invariant 0 <= i <= n && |keys| == n
      invariant forall k :: 0 <= k < n ==> indices[k] < n && keys[k] == grades[indices[k]]
      invariant forall a, b :: 0 <= a < b < i ==> keys[a] <= keys[b]
      invariant multiset(indices[..]) == multiset(Range(n))
      invariant multiset(keys) == multiset(grades)
    {
      keys := InsertIndex(indices, grades, i, keys);
      i := i + 1;
    }
    order := indices[..];
    assert seq(|order|, k requires 0 <= k < |order| => grades[order[k]]) == keys;
  }

  /** Every index below n occurs in a permutation of 0..n, at some position k. */
  lemma PositionOf(order: seq<nat>, n: nat, i: nat) returns (k: nat)
    requires multiset(order) == multiset(Range(n)) && i < n
    ensures k < |order| && order[k] == i
  {
    assert Range(n)[i] == i;
    assert i in multiset(Range(n));
    assert i in order;
    k :| 0 <= k < |order| && order[k] == i;
  }

  /**
   * At the first position of a tie group in ascending order, below the highest
   * grade, the percentile is that position over n-1, times 100.
   */
  lemma PercentileAtGroupStart(grades: seq<real>, sorted: seq<real>, index: nat)
    requires multiset(sorted) == multiset(grades)
    requires forall a, b :: 0 <= a < b < |sorted| ==> sorted[a] <= sorted[b]
    requires index < |sorted| && (index == 0 || sorted[index - 1] != sorted[index])
    requires sorted[index] in grades && sorted[index] != MaxGrade(grades)
    ensures |grades| >= 2
    ensures Percentile(grades, sorted[index]) == index as real / (|grades| - 1) as real * 100.0
  {
    CountBelowAtGroupStart(sorted, index);
    CountBelowPermutation(sorted, grades, sorted[index]);
  }

  /** Every student is either as it was or has its own grade's percentile. */
  ghost predicate Touched(cur: seq<Student>, orig: seq<Student>, grades: seq<real>)
  {
    |cur| == |orig| == |grades| &&
    forall i :: 0 <= i < |grades| ==>
      cur[i] == orig[i] || cur[i] == orig[i].(percentile := Percentile(grades, grades[i]))
  }

  /** The students at the first `index` sorted positions have their grade's percentile. */
  ghost predicate DoneUpTo(cur: seq<Student>, orig: seq<Student>, grades: seq<real>, indices: seq<nat>, index: nat)
    requires |cur| == |orig| == |grades| && index <= |indices|
    requires forall k :: 0 <= k < |indices| ==> indices[k] < |grades|
  {
    forall k :: 0 <= k < index ==>
      cur[indices[k]] == orig[indices[k]].(percentile := Percentile(grades, grades[indices[k]]))
  }

  /** Setting the percentile of the student at the next sorted position extends both facts by one position. */
  lemma AssignStep(cur: seq<Student>, orig: seq<Student>, grades: seq<real>, indices: seq<nat>, index: nat, p: real)
    requires index < |indices|
    requires forall k :: 0 <= k < |indices| ==> indices[k] < |grades|
    requires Touched(cur, orig, grades) && DoneUpTo(cur, orig, grades, indices, index)
    requires p == Percentile(grades, grades[indices[index]])
    ensures Touched(cur[indices[index] := cur[indices[index]].(percentile := p)], orig, grades)
    ensures DoneUpTo(cur[indices[index] := cur[indices[index]].(percentile := p)], orig, grades, indices, index + 1)
  {
  }

  /**
   * The percentile of the grade at sorted position `index`: the last
   * percentile when the grade repeats the last one, 100 for the highest
   * grade, otherwise the position over n-1, times 100.
   */
  method NextPercentile(grades: seq<real>, ghost sorted: seq<real>, grade: real, maxGrade: real, index: nat,
                        lastGrade: Option<real>, lastPercentile: Option<real>) returns (percentile: real)
    requires multiset(sorted) == multiset(grades)
    requires forall a, b :: 0 <= a < b < |sorted| ==> sorted[a] <= sorted[b]
    requires index < |sorted| && grade == sorted[index] && maxGrade == MaxGrade(grades)
    requires index == 0 ==> lastGrade == None
    requires index > 0 ==> sorted[index - 1] in grades && lastGrade == Some(sorted[index - 1]) &&
                           lastPercentile == Some(Percentile(grades, sorted[index - 1]))
    ensures grade in grades
    ensures percentile == Percentile(grades, grade)
  {
    assert grade in multiset(grades);
    if lastGrade.Some? && lastGrade.value == grade {
      percentile := lastPercentile.UnwrapOr(0.0);
    } else if grade == maxGrade {
      percentile := 100.0;
    } else {
      PercentileAtGroupStart(grades, sorted, index);
      percentile := index as real / (|grades| - 1) as real * 100.0;
    }
  }

  /** Writes the percentile of the student at the next sorted position into the slice. */
  method SetPercentile(students: array<Student>, studentIndex: nat, percentile: real,
                       ghost orig: seq<Student>, ghost grades: seq<real>, ghost indices: seq<nat>, ghost index: nat)
    requires index < |indices| && studentIndex == indices[index]
    requires forall k :: 0 <= k < |indices| ==> indices[k] < |grades|
    requires Touched(students[..], orig, grades) && DoneUpTo(students[..], orig, grades, indices, index)
    requires percentile == Percentile(grades, grades[studentIndex])
    modifies students
    ensures Touched(students[..], orig, grades) && DoneUpTo(students[..], orig, grades, indices, index + 1)
  {
    ghost var before := students[..];
    AssignStep(before, orig, grades, indices, index, percentile);
    students[studentIndex] := students[studentIndex].(percentile := percentile);
    assert students[..] == before[studentIndex := before[studentIndex].(percentile := percentile)];
  }

  /**
   * The walk of `calculate_percentiles` over the sorted index vector, carrying
   * the last grade and the last percentile: a tie group takes the percentile
   * computed at its first index, the highest grade takes 100 and any other
   * grade its position over n-1, times 100.
   */
  method AssignPercentiles(students: array<Student>, grades: seq<real>, maxGrade: real, indices: seq<nat>,
                           ghost sorted: seq<real>)
    requires students.Length == |grades| == |indices| == |sorted|
    requires forall i :: 0 <= i < |grades| ==> grades[i] == students[i].grade
    requires maxGrade == MaxGrade(grades)
    requires forall k :: 0 <= k < |indices| ==> indices[k] < |grades| && sorted[k] == grades[indices[k]]
    requires forall a, b :: 0 <= a < b < |sorted| ==> sorted[a] <= sorted[b]
    requires multiset(sorted) == multiset(grades)
    modifies students
    ensures forall i :: 0 <= i < |grades| ==>
              students[i] == old(students[i]) || students[i] == old(students[i]).(percentile := Percentile(grades, grades[i]))
    ensures forall k :: 0 <= k < |indices| ==>
              students[indices[k]] == old(students[indices[k]]).(percentile := Percentile(grades, grades[indices[k]]))
  {
    var n := students.Length;
    ghost var orig := students[..];
    var lastGrade: Option<real> := None;
    var lastPercentile: Option<real> := None;
    var index := 0;
    while index < n
      invariant 0 <= index <= n && students.Length == n
      invariant Touched(students[..], orig, grades)
      invariant DoneUpTo(students[..], orig, grades, indices, index)
      invariant index == 0 ==> lastGrade == None
      invariant index > 0 ==> lastGrade == Some(sorted[index - 1]) &&
                              lastPercentile == Some(Percentile(grades, sorted[index - 1]))
    {
      var studentIndex := indices[index];
      var grade := students[studentIndex].grade;
      assert grade == orig[studentIndex].grade == grades[studentIndex] == sorted[index];
      var percentile := NextPercentile(grades, sorted, grade, maxGrade, index, lastGrade, lastPercentile);
      SetPercentile(students, studentIndex, percentile, orig, grades, indices, index);
      lastGrade := Some(grade);
      lastPercentile := Some(percentile);
      index := index + 1;
    }
  }

  /**
   * `calculate_percentiles`: builds and sorts the index vector, then walks it.
   * Only the percentile fields of the slice change, to the values
   * `WithPercentiles` describes; an empty slice is left as it is.
   */
  method CalculatePercentiles(students: array<Student>)
    modifies students
    ensures students[..] == WithPercentiles(old(students[..]))
  {
    var n := students.Length;
    var grades := Grades(students[..]);
    var maxGrade := MaxGrade(grades);
    var indices := SortIndicesByGrade(grades);
    ghost var sorted := seq(n, k requires 0 <= k < n => grades[indices[k]]);
    AssignPercentiles(students, grades, maxGrade, indices, sorted);
    forall i | 0 <= i < n
      ensures students[i] == old(students[i]).(percentile := Percentile(grades, grades[i]))
    {
      var k := PositionOf(indices, n, i);
      assert students[indices[k]] == old(students[indices[k]]).(percentile := Percentile(grades, grades[indices[k]]));
    }
    assert grades == Grades(old(students[..]));
  }
}
