/**
 * The stable sorts of `Vec::sort_by_key` and `Vec::sort_by` with the two
 * comparators the exam uses, and what stability buys: sorting by name first
 * and then by grade breaks grade ties by name.
 */
module Sorting {
  import opened Wrappers
  import opened StudentRecord
  import opened Text

  /** The two comparators of src/exam/mod.rs. */
  datatype Order = ByName(folding: Folding) | ByGradeDescending

  /**
   * The comparator does not put b strictly before a: `sort_by_key` compares
   * the folded names with `Ord`, so equal keys are never reordered, and
   * `b.grade.partial_cmp(&a.grade)` puts a higher grade first.
   */
  predicate Le(o: Order, a: Entry, b: Entry)
    ensures o.ByName? && SortKey(o.folding, a.name) == SortKey(o.folding, b.name) ==> Le(o, a, b)
    ensures o.ByGradeDescending? ==> (Le(o, a, b) <==> b.grade <= a.grade)
  {
    match o
    case ByName(f) =>
      LexLeReflexive(SortKey(f, a.name));
      LexLe(SortKey(f, a.name), SortKey(f, b.name))
    case ByGradeDescending => a.grade >= b.grade
  }

  /** The comparator finds a and b equal. */
  predicate SameKey(o: Order, a: Entry, b: Entry)
  {
    match o
    case ByName(f) => SortKey(f, a.name) == SortKey(f, b.name)
    case ByGradeDescending => a.grade == b.grade
  }

  lemma LeTotal(o: Order, a: Entry, b: Entry)
    ensures Le(o, a, b) || Le(o, b, a)
  {
    if o.ByName? {
      LexLeTotal(SortKey(o.folding, a.name), SortKey(o.folding, b.name));
    }
  }

  lemma LeTransitive(o: Order, a: Entry, b: Entry, c: Entry)
    requires Le(o, a, b) && Le(o, b, c)
    ensures Le(o, a, c)
  {
    if o.ByName? {
      var f := o.folding;
      LexLeTransitive(SortKey(f, a.name), SortKey(f, b.name), SortKey(f, c.name));
    }
  }

  /** The comparator finds a and b equal exactly when neither goes strictly first. */
  lemma LeBothWays(o: Order, a: Entry, b: Entry)
    ensures Le(o, a, b) && Le(o, b, a) <==> SameKey(o, a, b)
  {
    if o.ByName? {
      var f := o.folding;
      LexLeReflexive(SortKey(f, a.name));
      if Le(o, a, b) && Le(o, b, a) {
        LexLeAntisymmetric(SortKey(f, a.name), SortKey(f, b.name));
      }
    }
  }

  /** The list is in the comparator's order. */
  ghost predicate SortedBy(s: seq<Entry>, o: Order)
  {
    forall i, j :: 0 <= i < j < |s| ==> Le(o, s[i], s[j])
  }

  /** Inserts x before the first element it may precede, so that x goes before its equals. */
  function Insert(x: Entry, s: seq<Entry>, o: Order): (r: seq<Entry>)
    ensures multiset(r) == multiset{x} + multiset(s)
  {
    if s == [] then [x]
    else if Le(o, x, s[0]) then [x] + s
    else
      assert s == [s[0]] + s[1..];
      [s[0]] + Insert(x, s[1..], o)
  }

  lemma {:induction false} InsertSorted(x: Entry, s: seq<Entry>, o: Order)
    requires SortedBy(s, o)
    ensures SortedBy(Insert(x, s, o), o)
  {
    if s == [] {
    } else if Le(o, x, s[0]) {
      forall j | 1 <= j < |s| ensures Le(o, x, s[j]) {
        LeTransitive(o, x, s[0], s[j]);
      }
    } else {
      var r := Insert(x, s[1..], o);
      SortedTail(s, o);
      InsertSorted(x, s[1..], o);
      LeTotal(o, x, s[0]);
      HeadBeforeInserted(x, s, o);
      SortedCons(s[0], r, o);
    }
  }

  /** The tail of a sorted list is sorted. */
  lemma SortedTail(s: seq<Entry>, o: Order)
    requires s != [] && SortedBy(s, o)
    ensures SortedBy(s[1..], o)
  {
    forall i, j | 0 <= i < j < |s| - 1 ensures Le(o, s[1..][i], s[1..][j]) {
      assert s[1..][i] == s[i + 1] && s[1..][j] == s[j + 1];
    }
  }

  /** A head that goes before every element of a sorted list keeps it sorted. */
  lemma SortedCons(h: Entry, r: seq<Entry>, o: Order)
    requires SortedBy(r, o)
    requires forall j :: 0 <= j < |r| ==> Le(o, h, r[j])
    ensures SortedBy([h] + r, o)
  {
    var t := [h] + r;
    forall i, j | 0 <= i < j < |t| ensures Le(o, t[i], t[j]) {
      assert t[j] == r[j - 1];
      if i > 0 {
        assert t[i] == r[i - 1];
      }
    }
  }

  /** When x goes after the head of a sorted list, the head goes before everything x is inserted among. */
  lemma HeadBeforeInserted(x: Entry, s: seq<Entry>, o: Order)
    requires s != [] && SortedBy(s, o) && Le(o, s[0], x)
    ensures forall j :: 0 <= j < |Insert(x, s[1..], o)| ==> Le(o, s[0], Insert(x, s[1..], o)[j])
  {
    var r := Insert(x, s[1..], o);
    forall j | 0 <= j < |r| ensures Le(o, s[0], r[j]) {
      assert r[j] in multiset(r);
      if r[j] != x {
        assert r[j] in multiset(s[1..]);
        var k :| 0 <= k < |s[1..]| && s[1..][k] == r[j];
        assert s[k + 1] == r[j];
      }
    }
  }

  /**
   * A stable sort: the library sorts are stable, and `StableSortUnique` shows
   * that every stable sort returns this list.
   */
  function StableSort(s: seq<Entry>, o: Order): (r: seq<Entry>)
    ensures multiset(r) == multiset(s)
    ensures SortedBy(r, o)
  {
    if s == [] then []
    else
      var rest := StableSort(s[1..], o);
      InsertSorted(s[0], rest, o);
      assert s == [s[0]] + s[1..];
      Insert(s[0], rest, o)
  }

  /** The tie group of z: the elements that compare equal to z, in list order. */
  function Ties(s: seq<Entry>, o: Order, z: Entry): seq<Entry>
  {
    if s == [] then [] else (if SameKey(o, s[0], z) then [s[0]] else []) + Ties(s[1..], o, z)
  }

  lemma {:induction false} TiesMembers(s: seq<Entry>, o: Order, z: Entry)
    ensures forall y :: y in Ties(s, o, z) <==> y in s && SameKey(o, y, z)
  {
    if s != [] {
      TiesMembers(s[1..], o, z);
      assert s == [s[0]] + s[1..];
    }
  }

  /** The tie group of a list with a head: the head if it ties, then the tail's group. */
  lemma TiesCons(h: Entry, t: seq<Entry>, o: Order, z: Entry)
    ensures Ties([h] + t, o, z) == (if SameKey(o, h, z) then [h] else []) + Ties(t, o, z)
  {
    assert ([h] + t)[0] == h && ([h] + t)[1..] == t;
  }

  /** Inserting x adds it at the front of its own tie group and changes no other tie group. */
  lemma {:induction false} TiesOfInsert(x: Entry, s: seq<Entry>, o: Order, z: Entry)
    ensures Ties(Insert(x, s, o), o, z) == if SameKey(o, x, z) then [x] + Ties(s, o, z) else Ties(s, o, z)
  {
    if s == [] {
      assert [x] == [x] + s;
      TiesCons(x, s, o, z);
    } else if Le(o, x, s[0]) {
      TiesCons(x, s, o, z);
    } else {
      var r := Insert(x, s[1..], o);
      assert Insert(x, s, o) == [s[0]] + r;
      TiesCons(s[0], r, o, z);
      assert s == [s[0]] + s[1..];
      TiesCons(s[0], s[1..], o, z);
      TiesOfInsert(x, s[1..], o, z);
      if SameKey(o, x, z) && SameKey(o, s[0], z) {
        assert false;
      }
    }
  }

  /** Stability: sorting keeps every tie group in its original order. */
  lemma {:induction false} StableSortKeepsTies(s: seq<Entry>, o: Order, z: Entry)
    ensures Ties(StableSort(s, o), o, z) == Ties(s, o, z)
  {
    if s != [] {
      StableSortKeepsTies(s[1..], o, z);
      TiesOfInsert(s[0], StableSort(s[1..], o), o, z);
      assert s == [s[0]] + s[1..];
      TiesCons(s[0], s[1..], o, z);
    }
  }

  /** The tie groups of one order taken from a list sorted by another are sorted by that other order. */
  lemma {:induction false} TiesOfSorted(s: seq<Entry>, o: Order, o2: Order, z: Entry)
    requires SortedBy(s, o2)
    ensures SortedBy(Ties(s, o, z), o2)
  {
    if s != [] {
      var rest := Ties(s[1..], o, z);
      TiesOfSorted(s[1..], o, o2, z);
      if SameKey(o, s[0], z) {
        TiesMembers(s[1..], o, z);
        forall j | 0 <= j < |rest| ensures Le(o2, s[0], rest[j]) {
          assert rest[j] in s[1..];
          var k :| 0 <= k < |s[1..]| && s[1..][k] == rest[j];
          assert s[k + 1] == rest[j];
        }
        assert Ties(s, o, z) == [s[0]] + rest;
      } else {
        assert Ties(s, o, z) == rest;
      }
    }
  }

  /** Taking the tie groups of two orders commutes. */
  lemma {:induction false} TiesCommute(s: seq<Entry>, o1: Order, z1: Entry, o2: Order, z2: Entry)
    ensures Ties(Ties(s, o1, z1), o2, z2) == Ties(Ties(s, o2, z2), o1, z1)
  {
    if s != [] {
      TiesCommute(s[1..], o1, z1, o2, z2);
      var h := s[0];
      var t1, t2 := Ties(s[1..], o1, z1), Ties(s[1..], o2, z2);
      if SameKey(o1, h, z1) {
        assert Ties(s, o1, z1) == [h] + t1;
        assert ([h] + t1)[1..] == t1;
      } else {
        assert Ties(s, o1, z1) == t1;
      }
      if SameKey(o2, h, z2) {
        assert Ties(s, o2, z2) == [h] + t2;
        assert ([h] + t2)[1..] == t2;
      } else {
        assert Ties(s, o2, z2) == t2;
      }
    }
  }

  /** The head of a non-empty list heads its own tie group. */
  lemma TiesOfHead(s: seq<Entry>, o: Order)
    requires s != []
    ensures Ties(s, o, s[0]) == [s[0]] + Ties(s[1..], o, s[0])
  {
    LeBothWays(o, s[0], s[0]);
    LeTotal(o, s[0], s[0]);
  }

  /** The head of a sorted list goes no later than any of its elements. */
  lemma HeadFirst(s: seq<Entry>, o: Order, y: Entry)
    requires SortedBy(s, o) && y in s
    ensures Le(o, s[0], y)
  {
    var j :| 0 <= j < |s| && s[j] == y;
    if j == 0 {
      LeBothWays(o, y, y);
    }
  }

  /** The head of a sorted list is an element of the other list and vice versa. */
  lemma HeadInOther(a: seq<Entry>, b: seq<Entry>, o: Order)
    requires a != []
    requires Ties(a, o, a[0]) == Ties(b, o, a[0])
    ensures a[0] in b
  {
    TiesOfHead(a, o);
    TiesMembers(b, o, a[0]);
    assert a[0] in Ties(b, o, a[0]);
  }

  /** Two sorted lists with the same tie groups start with the same element. */
  lemma SameTiesSameHead(a: seq<Entry>, b: seq<Entry>, o: Order)
    requires a != [] && b != []
    requires SortedBy(a, o) && SortedBy(b, o)
    requires Ties(a, o, a[0]) == Ties(b, o, a[0])
    requires Ties(a, o, b[0]) == Ties(b, o, b[0])
    ensures a[0] == b[0]
  {
    var x, y := a[0], b[0];
    HeadInOther(a, b, o);
    HeadInOther(b, a, o);
    HeadFirst(b, o, x);
    HeadFirst(a, o, y);
    LeBothWays(o, x, y);
    assert SameKey(o, y, x);
    TiesOfHead(a, o);
    assert Ties(b, o, x)[0] == y;
    assert Ties(a, o, x)[0] == x;
  }

  /** Lists with the same head and the same tie groups have tails with the same tie groups. */
  lemma SameTiesSameTails(a: seq<Entry>, b: seq<Entry>, o: Order, z: Entry)
    requires a != [] && b != [] && a[0] == b[0]
    requires Ties(a, o, z) == Ties(b, o, z)
    ensures Ties(a[1..], o, z) == Ties(b[1..], o, z)
  {
    var p := if SameKey(o, a[0], z) then [a[0]] else [];
    assert Ties(a, o, z) == p + Ties(a[1..], o, z);
    assert Ties(b, o, z) == p + Ties(b[1..], o, z);
    assert (p + Ties(a[1..], o, z))[|p|..] == Ties(a[1..], o, z);
    assert (p + Ties(b[1..], o, z))[|p|..] == Ties(b[1..], o, z);
  }

  /** Two sorted lists with the same tie groups are equal. */
  lemma {:induction false} SortedWithSameTiesEqual(a: seq<Entry>, b: seq<Entry>, o: Order)
    requires SortedBy(a, o) && SortedBy(b, o)
    requires forall z :: Ties(a, o, z) == Ties(b, o, z)
    ensures a == b
    decreases |a|
  {
    if a == [] {
      if b != [] {
        TiesOfHead(b, o);
      }
    } else if b == [] {
      TiesOfHead(a, o);
    } else {
      SameTiesSameHead(a, b, o);
      forall z ensures Ties(a[1..], o, z) == Ties(b[1..], o, z) {
        SameTiesSameTails(a, b, o, z);
      }
      SortedWithSameTiesEqual(a[1..], b[1..], o);
      assert a == [a[0]] + a[1..] && b == [b[0]] + b[1..];
    }
  }

  /**
   * Any sorted list with the tie groups of s is the stable sort of s, so every
   * stable sort, the library's among them, returns `StableSort(s, o)`.
   */
  lemma StableSortUnique(s: seq<Entry>, r: seq<Entry>, o: Order)
    requires SortedBy(r, o)
    requires forall z :: Ties(r, o, z) == Ties(s, o, z)
    ensures r == StableSort(s, o)
  {
    forall z ensures Ties(r, o, z) == Ties(StableSort(s, o), o, z) {
      StableSortKeepsTies(s, o, z);
    }
    SortedWithSameTiesEqual(r, StableSort(s, o), o);
  }

  /** Sorting a second time by the same comparator changes nothing. */
  lemma StableSortIdempotent(s: seq<Entry>, o: Order)
    ensures StableSort(StableSort(s, o), o) == StableSort(s, o)
  {
    var t := StableSort(s, o);
    StableSortUnique(t, t, o);
  }

  /**
   * If every tie group of o1 is ordered by o2, then any two elements that tie
   * under o1 appear in o2's order.
   */
  lemma {:induction false} TiesOrderedGivesPairs(s: seq<Entry>, o1: Order, o2: Order)
    requires forall z :: SortedBy(Ties(s, o1, z), o2)
    ensures forall i, j :: 0 <= i < j < |s| && SameKey(o1, s[i], s[j]) ==> Le(o2, s[i], s[j])
  {
    if s != [] {
      var h := s[0];
      forall z ensures SortedBy(Ties(s[1..], o1, z), o2) {
        assert SortedBy(Ties(s, o1, z), o2);
        if SameKey(o1, h, z) {
          var t := Ties(s[1..], o1, z);
          assert Ties(s, o1, z) == [h] + t;
          forall a, b | 0 <= a < b < |t| ensures Le(o2, t[a], t[b]) {
            assert ([h] + t)[a + 1] == t[a] && ([h] + t)[b + 1] == t[b];
          }
        } else {
          assert Ties(s, o1, z) == Ties(s[1..], o1, z);
        }
      }
      TiesOrderedGivesPairs(s[1..], o1, o2);
      forall i, j | 0 <= i < j < |s| && SameKey(o1, s[i], s[j])
        ensures Le(o2, s[i], s[j])
      {
        if i == 0 {
          var t := Ties(s[1..], o1, h);
          TiesMembers(s[1..], o1, h);
          TiesOfHead(s, o1);
          LeBothWays(o1, s[j], h);
          LeBothWays(o1, h, s[j]);
          assert s[j] in s[1..];
          assert s[j] in t;
          var k :| 0 <= k < |t| && t[k] == s[j];
          assert SortedBy([h] + t, o2);
          assert ([h] + t)[0] == h && ([h] + t)[k + 1] == s[j];
        } else {
          assert s[1..][i - 1] == s[i] && s[1..][j - 1] == s[j];
        }
      }
    }
  }

  /** `sort_by_grade`: the stable name sort, then the stable sort by descending grade. */
  function GradeOrder(s: seq<Entry>, f: Folding): (r: seq<Entry>)
    ensures multiset(r) == multiset(s)
    ensures SortedBy(r, ByGradeDescending)
  {
    StableSort(StableSort(s, ByName(f)), ByGradeDescending)
  }

  /** The grade order is a permutation with grades non-increasing and grade ties in name order. */
  lemma GradeOrderSorted(s: seq<Entry>, f: Folding)
    ensures multiset(GradeOrder(s, f)) == multiset(s)
    ensures forall i, j :: 0 <= i < j < |GradeOrder(s, f)| ==> GradeOrder(s, f)[i].grade >= GradeOrder(s, f)[j].grade
    ensures forall i, j :: 0 <= i < j < |GradeOrder(s, f)| && GradeOrder(s, f)[i].grade == GradeOrder(s, f)[j].grade ==>
              LexLe(SortKey(f, GradeOrder(s, f)[i].name), SortKey(f, GradeOrder(s, f)[j].name))
  {
    var t := StableSort(s, ByName(f));
    var r := StableSort(t, ByGradeDescending);
    forall z ensures SortedBy(Ties(r, ByGradeDescending, z), ByName(f)) {
      StableSortKeepsTies(t, ByGradeDescending, z);
      TiesOfSorted(t, ByGradeDescending, ByName(f), z);
    }
    TiesOrderedGivesPairs(r, ByGradeDescending, ByName(f));
  }

  /**
   * The grade order depends only on the groups of students that tie on both
   * the name key and the grade, each in its original order.
   */
  lemma GradeOrderByTies(x: seq<Entry>, y: seq<Entry>, f: Folding)
    requires forall z, w :: Ties(Ties(x, ByName(f), z), ByGradeDescending, w) == Ties(Ties(y, ByName(f), z), ByGradeDescending, w)
    ensures GradeOrder(x, f) == GradeOrder(y, f)
  {
    var n, g := ByName(f), ByGradeDescending;
    var nx, ny := StableSort(x, n), StableSort(y, n);
    forall w ensures Ties(nx, g, w) == Ties(ny, g, w) {
      TiesOfSorted(nx, g, n, w);
      TiesOfSorted(ny, g, n, w);
      forall z ensures Ties(Ties(nx, g, w), n, z) == Ties(Ties(ny, g, w), n, z) {
        TiesCommute(nx, g, w, n, z);
        TiesCommute(ny, g, w, n, z);
        StableSortKeepsTies(x, n, z);
        StableSortKeepsTies(y, n, z);
      }
      SortedWithSameTiesEqual(Ties(nx, g, w), Ties(ny, g, w), n);
    }
    forall w ensures Ties(GradeOrder(x, f), g, w) == Ties(ny, g, w) {
      StableSortKeepsTies(nx, g, w);
    }
    StableSortUnique(ny, GradeOrder(x, f), g);
  }

  /**
   * Sorting by grade gives the same list whether or not the students were
   * sorted by name or by grade before; in particular sorting by grade, then
   * by name, then by grade again returns the first grade order.
   */
  lemma GradeOrderAfterSort(x: seq<Entry>, f: Folding, o: Order)
    requires o == ByName(f) || o == ByGradeDescending
    ensures GradeOrder(StableSort(x, o), f) == GradeOrder(x, f)
  {
    var n, g := ByName(f), ByGradeDescending;
    var s := StableSort(x, o);
    forall z, w ensures Ties(Ties(s, n, z), g, w) == Ties(Ties(x, n, z), g, w) {
      if o == n {
        StableSortKeepsTies(x, n, z);
      } else {
        TiesCommute(s, n, z, g, w);
        StableSortKeepsTies(x, g, w);
        TiesCommute(x, n, z, g, w);
      }
    }
    GradeOrderByTies(s, x, f);
  }

  /** Sorting by grade twice in a row changes nothing. */
  lemma GradeOrderIdempotent(x: seq<Entry>, f: Folding)
    ensures GradeOrder(GradeOrder(x, f), f) == GradeOrder(x, f)
  {
    var t := StableSort(x, ByName(f));
    GradeOrderAfterSort(t, f, ByGradeDescending);
    GradeOrderAfterSort(x, f, ByName(f));
  }

  /** The three students of the doc tests in src/exam/mod.rs. */
  const Joan := Entry("Joan Beltrán Peris", 4.6, None, None)
  const Jose := Entry("Jose Abad Martínez", 3.6, None, None)
  const David := Entry("David Jiménez Hidalgo", 7.94, None, None)

  /** How the three folded names compare. */
  lemma ExampleKeysCompare()
    ensures LexLe("joan beltran peris", "jose abad martinez")
    ensures !LexLe("jose abad martinez", "david jimenez hidalgo")
    ensures !LexLe("joan beltran peris", "david jimenez hidalgo")
  {
    var a, b := "joan beltran peris", "jose abad martinez";
    assert a[1..][1..][0] < b[1..][1..][0];
  }

  /** What the foldings make of the three doc-test names. */
  predicate ExampleFolding(f: Folding)
  {
    && SortKey(f, Joan.name) == "joan beltran peris"
    && SortKey(f, Jose.name) == "jose abad martinez"
    && SortKey(f, David.name) == "david jimenez hidalgo"
  }

  lemma ExampleComparisons(f: Folding)
    requires ExampleFolding(f)
    ensures Le(ByName(f), Joan, Jose) && !Le(ByName(f), Jose, David) && !Le(ByName(f), Joan, David)
  {
    ExampleKeysCompare();
  }

  /** Sorting a list with a head inserts the head into the sorted tail. */
  lemma StableSortCons(h: Entry, t: seq<Entry>, o: Order)
    ensures StableSort([h] + t, o) == Insert(h, StableSort(t, o), o)
  {
    assert ([h] + t)[0] == h && ([h] + t)[1..] == t;
  }

  /** Sorting two elements that are out of order swaps them. */
  lemma SortTwoSwapped(a: Entry, b: Entry, o: Order)
    requires !Le(o, a, b)
    ensures StableSort([a, b], o) == [b, a]
  {
    StableSortCons(b, [], o);
    assert [b] + [] == [b];
    StableSortCons(a, [b], o);
    assert [a] + [b] == [a, b];
    assert Insert(a, [b], o) == [b] + Insert(a, [], o);
  }

  /** Inserting an element that goes after the first of two and before the second puts it between them. */
  lemma InsertBetween(x: Entry, a: Entry, b: Entry, o: Order)
    requires !Le(o, x, a) && Le(o, x, b)
    ensures Insert(x, [a, b], o) == [a, x, b]
  {
    var t := [a, b];
    assert t[0] == a && t[1..] == [b];
    assert Insert(x, t, o) == [a] + Insert(x, [b], o);
    assert Insert(x, [b], o) == [x] + [b];
  }

  lemma ExampleTailSorted(f: Folding)
    requires ExampleFolding(f)
    ensures StableSort([Jose, David], ByName(f)) == [David, Jose]
  {
    ExampleComparisons(f);
    SortTwoSwapped(Jose, David, ByName(f));
  }

  lemma ExampleInsertJoan(f: Folding)
    requires ExampleFolding(f)
    ensures Insert(Joan, [David, Jose], ByName(f)) == [David, Joan, Jose]
  {
    ExampleComparisons(f);
    InsertBetween(Joan, David, Jose, ByName(f));
  }

  /** The doc test of `sort_by_alphabetic_order`, given what the foldings make of the three names. */
  lemma AlphabeticOrderExample(f: Folding)
    requires ExampleFolding(f)
    ensures StableSort([Joan, Jose, David], ByName(f)) == [David, Joan, Jose]
  {
    var o := ByName(f);
    var t := [Joan, Jose, David];
    assert t[0] == Joan && t[1..] == [Jose, David];
    assert StableSort(t, o) == Insert(Joan, StableSort([Jose, David], o), o);
    ExampleTailSorted(f);
    ExampleInsertJoan(f);
  }

  /** A permutation has the same length and the same members. */
  lemma PermutationMembers(r: seq<Entry>, s: seq<Entry>)
    requires multiset(r) == multiset(s)
    ensures |r| == |s|
    ensures forall x :: x in r <==> x in s
  {
    assert |r| == |multiset(r)|;
    forall x ensures x in r <==> x in s {
      assert x in r <==> x in multiset(r);
      assert x in s <==> x in multiset(s);
    }
  }

  /** A list of three entries with distinct grades, in non-increasing grade order, lists them by grade. */
  lemma ThreeGradesInOrder(r: seq<Entry>, a: Entry, b: Entry, c: Entry)
    requires SortedBy(r, ByGradeDescending)
    requires multiset(r) == multiset([a, b, c])
    requires b.grade < a.grade < c.grade
    ensures r == [c, a, b]
  {
    PermutationMembers(r, [a, b, c]);
    assert a in r && b in r && c in r;
    var ic :| 0 <= ic < 3 && r[ic] == c;
    var ib :| 0 <= ib < 3 && r[ib] == b;
    assert r[0].grade >= r[ic].grade;
    assert r[ib].grade >= r[2].grade;
    assert r[0] in r && r[1] in r && r[2] in r;
  }

  /** The doc test of `sort_by_grade`: distinct grades fix the order whatever the names. */
  lemma GradeOrderExample(f: Folding)
    ensures GradeOrder([Joan, Jose, David], f) == [David, Joan, Jose]
  {
    var t := StableSort([Joan, Jose, David], ByName(f));
    ThreeGradesInOrder(StableSort(t, ByGradeDescending), Joan, Jose, David);
  }
}
