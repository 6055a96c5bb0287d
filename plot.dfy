/**
 * The data side of `histogram` in src/exam/plot.rs: grades at or above the
 * maximum are pulled just below it, and each grade is counted in the bucket
 * of its whole part.
 */
module Plot {
  import opened StudentRecord

  /** `x.ceil()` as an integer: the least integer not below x. */
  function Ceil(x: real): (r: int)
    ensures (r - 1) as real < x <= r as real
  {
    -((-x).Floor)
  }

  /** A float-to-`usize` cast: saturating, so a negative value becomes 0. */
  function ToUsize(x: int): (r: nat)
    ensures x >= 0 ==> r == x
    ensures x < 0 ==> r == 0
  {
    if x < 0 then 0 else x
  }

  /** `max_grade.ceil() as usize`: the number of buckets, one per unit. */
  function BucketCount(maxGrade: real): (n: nat)
    ensures maxGrade <= 0.0 ==> n == 0
    ensures maxGrade > 0.0 ==> (n as real) - 1.0 < maxGrade <= n as real
  {
    ToUsize(Ceil(maxGrade))
  }

  /** `grade.floor() as usize`: the bucket a mapped grade is counted in. */
  function BucketIndex(grade: real): (b: nat)
    ensures grade < 0.0 ==> b == 0
    ensures grade >= 0.0 ==> b as real <= grade < (b as real) + 1.0
  {
    ToUsize(grade.Floor)
  }

  /**
   * The closure's mapping of one grade: a grade above the maximum is replaced
   * by `max_grade - 0.01`, a grade equal to the maximum loses 0.01, and any
   * other grade is kept. Either way the result lies strictly below the maximum.
   */
  function Clamp(grade: real, maxGrade: real): (r: real)
    ensures r < maxGrade
    ensures grade < maxGrade ==> r == grade
    ensures grade >= maxGrade ==> r == maxGrade - 0.01
  {
    if grade > maxGrade then maxGrade - 0.01
    else if grade == maxGrade then grade - 0.01
    else grade
  }

  /**
   * The `map` over the students with its captured `overflow` flag: the mapped
   * grades, and whether any grade lay strictly above the maximum.
   */
  method ClampGrades(students: seq<Entry>, maxGrade: real) returns (mapped: seq<real>, overflow: bool)
    ensures |mapped| == |students|
    ensures forall i :: 0 <= i < |students| ==> mapped[i] == Clamp(students[i].grade, maxGrade)
    ensures overflow <==> exists i :: 0 <= i < |students| && students[i].grade > maxGrade
  {
    overflow := false;
    mapped := [];
    var k := 0;
    while k < |students|
      invariant 0 <= k <= |students|
      invariant |mapped| == k
      invariant forall i :: 0 <= i < k ==> mapped[i] == Clamp(students[i].grade, maxGrade)
      invariant overflow <==> exists i :: 0 <= i < k && students[i].grade > maxGrade
    {
      var grade := students[k].grade;
      if grade > maxGrade {
        overflow := true;
      }
      mapped := mapped + [Clamp(grade, maxGrade)];
      k := k + 1;
    }
  }

  /** How many of the grades fall into bucket b. */
  function Occurrences(grades: seq<real>, b: nat): (n: nat)
    ensures n <= |grades|
  {
    if grades == [] then 0
    else Occurrences(grades[..|grades| - 1], b) + (if BucketIndex(grades[|grades| - 1]) == b then 1 else 0)
  }

  /** The sum of the bucket counts. */
  function Total(s: seq<nat>): nat
  {
    if s == [] then 0 else Total(s[..|s| - 1]) + s[|s| - 1]
  }

  /** The largest bucket count, 0 when there are no buckets. */
  function Largest(s: seq<nat>): (m: nat)
    ensures forall i :: 0 <= i < |s| ==> s[i] <= m
    ensures s == [] ==> m == 0
    ensures s != [] ==> m in s
  {
    if s == [] then 0
    else
      var rest := Largest(s[..|s| - 1]);
      if s[|s| - 1] >= rest then s[|s| - 1] else rest
  }

  /** Adding one to a bucket adds one to the total. */
  lemma {:induction false} TotalIncrement(s: seq<nat>, j: nat)
    requires j < |s|
    ensures Total(s[j := s[j] + 1]) == Total(s) + 1
  {
    var t := s[j := s[j] + 1];
    if j < |s| - 1 {
      assert t[..|t| - 1] == s[..|s| - 1][j := s[j] + 1];
      TotalIncrement(s[..|s| - 1], j);
    } else {
      assert t[..|t| - 1] == s[..|s| - 1];
    }
  }

  /** Raising one bucket makes the largest count the larger of the old largest and the raised bucket. */
  lemma {:induction false} LargestRaise(s: seq<nat>, j: nat, v: nat)
    requires j < |s| && v >= s[j]
    ensures Largest(s[j := v]) == if v > Largest(s) then v else Largest(s)
  {
    var t, n := s[j := v], |s| - 1;
    var init := s[..n];
    assert Largest(s) == if s[n] >= Largest(init) then s[n] else Largest(init);
    if j < n {
      assert t[..n] == init[j := v] && t[n] == s[n];
      LargestRaise(init, j, v);
      assert Largest(t) == if s[n] >= Largest(init[j := v]) then s[n] else Largest(init[j := v]);
    } else {
      assert t[..n] == init && t[n] == v;
      assert Largest(t) == if v >= Largest(init) then v else Largest(init);
    }
  }

  /**
   * One step of the counting loop: adds one to the bucket and raises the
   * running maximum when that bucket now exceeds it.
   */
  method CountOne(buckets: array<nat>, bucket: nat, maxBucketSize: nat) returns (m: nat)
    requires bucket < buckets.Length && maxBucketSize == Largest(buckets[..])
    modifies buckets
    ensures buckets[..] == old(buckets[..])[bucket := old(buckets[bucket]) + 1]
    ensures Total(buckets[..]) == Total(old(buckets[..])) + 1
    ensures m == Largest(buckets[..])
  {
    ghost var before := buckets[..];
    buckets[bucket] := buckets[bucket] + 1;
    assert buckets[..] == before[bucket := before[bucket] + 1];
    TotalIncrement(before, bucket);
    LargestRaise(before, bucket, before[bucket] + 1);
    m := maxBucketSize;
    if buckets[bucket] > m {
      m := buckets[bucket];
    }
  }

  /** The bucket counts, or the panic of an index past the last bucket. */
  datatype Counted = Counted(buckets: seq<nat>, maxBucketSize: nat) | IndexOutOfBounds(position: nat, index: nat)

  /**
   * The counting loop over a zeroed bucket array: each mapped grade adds one
   * to bucket `floor(grade)` and the running maximum follows the bucket just
   * raised. An index past the last bucket panics in the source; here it ends
   * the loop with the position and the index.
   */
  method CountInto(buckets: array<nat>, mapped: seq<real>) returns (r: Counted)
    requires forall b :: 0 <= b < buckets.Length ==> buckets[b] == 0
    modifies buckets
    ensures r.Counted? <==> InRange(mapped, |mapped|, buckets.Length)
    ensures r.Counted? ==> r.buckets == buckets[..] && CountsOfPrefix(r.buckets, mapped, |mapped|)
    ensures r.Counted? ==> Total(r.buckets) == |mapped| && r.maxBucketSize == Largest(r.buckets)
    ensures r.IndexOutOfBounds? ==> r.position < |mapped| && r.index == BucketIndex(mapped[r.position])
    ensures r.IndexOutOfBounds? ==> r.index >= buckets.Length
    ensures r.IndexOutOfBounds? ==> InRange(mapped, r.position, buckets.Length)
  {
    var maxBucketSize := 0;
    var k := 0;
    LoopStart(buckets[..], mapped);
    while k < |mapped|
      invariant 0 <= k <= |mapped| && buckets.Length == |buckets[..]|
      invariant LoopState(buckets[..], mapped, k, maxBucketSize)
    {
      var bucket := BucketIndex(mapped[k]);
      if bucket >= buckets.Length {
        OutOfRange(mapped, k, buckets.Length);
        return IndexOutOfBounds(k, bucket);
      }
      maxBucketSize := CountGrade(buckets, mapped, k, maxBucketSize);
      k := k + 1;
    }
    return Counted(buckets[..], maxBucketSize);
  }

  /** The loop body for a grade whose bucket exists: it keeps the loop's state. */
  method CountGrade(buckets: array<nat>, mapped: seq<real>, k: nat, maxBucketSize: nat) returns (m: nat)
    requires k < |mapped| && BucketIndex(mapped[k]) < buckets.Length
    requires LoopState(buckets[..], mapped, k, maxBucketSize)
    modifies buckets
    ensures LoopState(buckets[..], mapped, k + 1, m)
  {
    ghost var before := buckets[..];
    m := CountOne(buckets, BucketIndex(mapped[k]), maxBucketSize);
    LoopStep(before, buckets[..], mapped, k, maxBucketSize, m);
  }

  /** Each of the first k grades has its bucket among the first n. */
  ghost predicate InRange(mapped: seq<real>, k: nat, n: nat)
    requires k <= |mapped|
  {
    forall i :: 0 <= i < k ==> BucketIndex(mapped[i]) < n
  }

  /** A grade whose bucket is not among the first n leaves the whole list out of range. */
  lemma OutOfRange(mapped: seq<real>, k: nat, n: nat)
    requires k < |mapped| && BucketIndex(mapped[k]) >= n
    ensures !InRange(mapped, |mapped|, n)
  {
  }

  /** What the counting loop keeps after k grades. */
  ghost predicate LoopState(counts: seq<nat>, mapped: seq<real>, k: nat, maxBucketSize: nat)
    requires k <= |mapped|
  {
    && InRange(mapped, k, |counts|)
    && CountsOfPrefix(counts, mapped, k)
    && Total(counts) == k
    && maxBucketSize == Largest(counts)
  }

  lemma LoopStart(counts: seq<nat>, mapped: seq<real>)
    requires forall b :: 0 <= b < |counts| ==> counts[b] == 0
    ensures LoopState(counts, mapped, 0, 0)
  {
    ZeroBuckets(counts);
  }

  lemma LoopStep(before: seq<nat>, after: seq<nat>, mapped: seq<real>, k: nat, beforeMax: nat, afterMax: nat)
    requires k < |mapped| && BucketIndex(mapped[k]) < |before|
    requires LoopState(before, mapped, k, beforeMax)
    requires after == before[BucketIndex(mapped[k]) := before[BucketIndex(mapped[k])] + 1]
    requires Total(after) == Total(before) + 1 && afterMax == Largest(after)
    ensures LoopState(after, mapped, k + 1, afterMax)
  {
    InRangeStep(mapped, k, |before|);
    CountsStep(before, after, mapped, k);
  }

  /** A grade whose bucket exists extends the in-range prefix by one. */
  lemma InRangeStep(mapped: seq<real>, k: nat, n: nat)
    requires k < |mapped| && InRange(mapped, k, n) && BucketIndex(mapped[k]) < n
    ensures InRange(mapped, k + 1, n)
  {
  }

  /**
   * `vec![0; max_grade.ceil() as usize]` and the counting loop: on success,
   * one count per bucket, the number of grades in it.
   */
  method CountBuckets(mapped: seq<real>, maxGrade: real) returns (r: Counted)
    ensures r.Counted? <==> forall i :: 0 <= i < |mapped| ==> BucketIndex(mapped[i]) < BucketCount(maxGrade)
    ensures r.Counted? ==> |r.buckets| == BucketCount(maxGrade)
    ensures r.Counted? ==> forall b :: 0 <= b < |r.buckets| ==> r.buckets[b] == Occurrences(mapped, b)
    ensures r.Counted? ==> Total(r.buckets) == |mapped| && r.maxBucketSize == Largest(r.buckets)
    ensures r.IndexOutOfBounds? ==> r.position < |mapped| && r.index == BucketIndex(mapped[r.position])
    ensures r.IndexOutOfBounds? ==> r.index >= BucketCount(maxGrade)
    ensures r.IndexOutOfBounds? ==> forall i :: 0 <= i < r.position ==> BucketIndex(mapped[i]) < BucketCount(maxGrade)
  {
    var buckets := new nat[BucketCount(maxGrade)](_ => 0);
    r := CountInto(buckets, mapped);
    assert mapped[..|mapped|] == mapped;
  }

  /** The counts are those of the first k grades. */
  ghost predicate CountsOfPrefix(counts: seq<nat>, mapped: seq<real>, k: nat)
    requires k <= |mapped|
  {
    forall b :: 0 <= b < |counts| ==> counts[b] == Occurrences(mapped[..k], b)
  }

  /** Counting grade k into its bucket turns the counts of the first k grades into those of the first k + 1. */
  lemma CountsStep(before: seq<nat>, after: seq<nat>, mapped: seq<real>, k: nat)
    requires k < |mapped| && BucketIndex(mapped[k]) < |before|
    requires CountsOfPrefix(before, mapped, k)
    requires after == before[BucketIndex(mapped[k]) := before[BucketIndex(mapped[k])] + 1]
    ensures CountsOfPrefix(after, mapped, k + 1)
  {
    assert mapped[..k + 1][..k] == mapped[..k];
  }

  /** Buckets that are all zero total zero and have largest count zero. */
  lemma {:induction false} ZeroBuckets(s: seq<nat>)
    requires forall i :: 0 <= i < |s| ==> s[i] == 0
    ensures Total(s) == 0 && Largest(s) == 0
  {
    if s != [] {
      ZeroBuckets(s[..|s| - 1]);
    }
  }

  /** With a positive maximum grade every mapped grade lands in a bucket that exists. */
  lemma ClampedInBounds(grade: real, maxGrade: real)
    requires maxGrade > 0.0
    ensures BucketIndex(Clamp(grade, maxGrade)) < BucketCount(maxGrade)
  {
    var x := Clamp(grade, maxGrade);
    assert x.Floor as real <= x < maxGrade <= Ceil(maxGrade) as real;
  }

  /** With a maximum grade of 0 or less there are no buckets. */
  lemma NoBucketsWithoutPositiveMax(maxGrade: real)
    requires maxGrade <= 0.0
    ensures BucketCount(maxGrade) == 0
  {
  }

  /**
   * `histogram` without the drawing: maps the grades, then counts them. With
   * a positive maximum grade the counting always succeeds, there are
   * `ceil(max_grade)` buckets and their counts add up to the number of students;
   * with no positive maximum and at least one student it panics.
   */
  method Histogram(students: seq<Entry>, maxGrade: real) returns (r: Counted, overflow: bool)
    ensures overflow <==> exists i :: 0 <= i < |students| && students[i].grade > maxGrade
    ensures maxGrade > 0.0 ==> r.Counted? && |r.buckets| == Ceil(maxGrade) && Total(r.buckets) == |students|
    ensures maxGrade <= 0.0 && students != [] ==> r.IndexOutOfBounds?
    ensures r.Counted? <==> (maxGrade > 0.0 || students == [])
    ensures students == [] ==> r.Counted? && r.maxBucketSize == 0
    ensures r.Counted? ==> r.maxBucketSize == Largest(r.buckets)
    ensures r.Counted? ==> forall b :: 0 <= b < |r.buckets| ==>
              r.buckets[b] == |set i | 0 <= i < |students| && BucketIndex(Clamp(students[i].grade, maxGrade)) == b|
  {
    var mapped;
    mapped, overflow := ClampGrades(students, maxGrade);
    if maxGrade > 0.0 {
      forall i | 0 <= i < |mapped| ensures BucketIndex(mapped[i]) < BucketCount(maxGrade) {
        ClampedInBounds(students[i].grade, maxGrade);
      }
    } else {
      NoBucketsWithoutPositiveMax(maxGrade);
    }
    r := CountBuckets(mapped, maxGrade);
    if r.Counted? {
      forall b | 0 <= b < |r.buckets|
        ensures r.buckets[b] == |set i | 0 <= i < |students| && BucketIndex(Clamp(students[i].grade, maxGrade)) == b|
      {
        OccurrencesCountsPositions(mapped, b);
        assert Positions(mapped, b) ==
               (set i | 0 <= i < |students| && BucketIndex(Clamp(students[i].grade, maxGrade)) == b);
      }
    }
  }

  /** The positions of the grades that fall into bucket b. */
  function Positions(grades: seq<real>, b: nat): set<int>
  {
    set i | 0 <= i < |grades| && BucketIndex(grades[i]) == b
  }

  /** The positions of a list are those of its prefix without the last grade, and the last position when it falls into b. */
  lemma PositionsSplit(grades: seq<real>, b: nat)
    requires grades != []
    ensures var n := |grades| - 1;
      Positions(grades, b) == Positions(grades[..n], b) + (if BucketIndex(grades[n]) == b then {n} else {})
  {
    var n := |grades| - 1;
    var init := grades[..n];
    forall i ensures i in Positions(init, b) <==> 0 <= i < n && BucketIndex(grades[i]) == b {
      if 0 <= i < n {
        assert init[i] == grades[i];
      }
    }
  }

  /** `Occurrences` counts the positions whose grade falls into the bucket. */
  lemma {:induction false} OccurrencesCountsPositions(grades: seq<real>, b: nat)
    ensures Occurrences(grades, b) == |Positions(grades, b)|
  {
    if grades != [] {
      var n := |grades| - 1;
      OccurrencesCountsPositions(grades[..n], b);
      PositionsSplit(grades, b);
      assert n !in Positions(grades[..n], b);
    }
  }
}
