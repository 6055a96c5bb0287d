/** `Vec::retain` and the order-preserving sublist relation it establishes. */
module Filtering {

  /** `Vec::retain`: keeps the elements the predicate accepts, in their original order. */
  function Retain<T(!new)>(s: seq<T>, keep: T -> bool): (r: seq<T>)
    ensures |r| <= |s|
    ensures forall x :: x in r <==> x in s && keep(x)
  {
    if s == [] then []
    else
      assert s == [s[0]] + s[1..];
      (if keep(s[0]) then [s[0]] else []) + Retain(s[1..], keep)
  }

  /** Retaining from a list with a head: the head if it is kept, then what the tail retains. */
  lemma RetainCons<T(!new)>(h: T, t: seq<T>, keep: T -> bool)
    ensures Retain([h] + t, keep) == (if keep(h) then [h] else []) + Retain(t, keep)
  {
    assert ([h] + t)[0] == h && ([h] + t)[1..] == t;
  }

  /** Retain keeps every copy of an accepted element and no copy of a rejected one. */
  lemma {:induction false} RetainCounts<T(!new)>(s: seq<T>, keep: T -> bool)
    ensures forall x :: multiset(Retain(s, keep))[x] == if keep(x) then multiset(s)[x] else 0
  {
    if s != [] {
      RetainCounts(s[1..], keep);
      assert s == [s[0]] + s[1..];
      RetainCons(s[0], s[1..], keep);
    }
  }

  /** r is s with some elements dropped and the rest in their order. */
  predicate Sublist<T(==)>(r: seq<T>, s: seq<T>)
  {
    r == [] || (s != [] && ((r[0] == s[0] && Sublist(r[1..], s[1..])) || Sublist(r, s[1..])))
  }

  lemma {:induction false} SublistReflexive<T>(s: seq<T>)
    ensures Sublist(s, s)
  {
    if s != [] {
      SublistReflexive(s[1..]);
    }
  }

  lemma {:induction false} SublistTransitive<T>(a: seq<T>, b: seq<T>, c: seq<T>)
    requires Sublist(a, b) && Sublist(b, c)
    ensures Sublist(a, c)
    decreases |c|
  {
    if a != [] {
      if b[0] == c[0] && Sublist(b[1..], c[1..]) {
        if a[0] == b[0] && Sublist(a[1..], b[1..]) {
          SublistTransitive(a[1..], b[1..], c[1..]);
        } else {
          SublistTransitive(a, b[1..], c[1..]);
        }
      } else {
        SublistTransitive(a, b, c[1..]);
      }
    }
  }

  lemma {:induction false} RetainSublist<T(!new)>(s: seq<T>, keep: T -> bool)
    ensures Sublist(Retain(s, keep), s)
  {
    if s != [] {
      RetainSublist(s[1..], keep);
      var rest := Retain(s[1..], keep);
      if keep(s[0]) {
        var r := [s[0]] + rest;
        assert Retain(s, keep) == r;
        assert r[0] == s[0] && r[1..] == rest;
      } else {
        assert Retain(s, keep) == rest;
      }
    }
  }

  /** Retaining from three elements the first and the last. */
  lemma RetainFirstAndLast<T(!new)>(a: T, b: T, c: T, keep: T -> bool)
    requires keep(a) && !keep(b) && keep(c)
    ensures Retain([a, b, c], keep) == [a, c]
  {
    RetainCons(c, [], keep);
    assert [c] == [c] + [];
    RetainCons(b, [c], keep);
    assert [b, c] == [b] + [c];
    RetainCons(a, [b, c], keep);
    assert [a, b, c] == [a] + [b, c];
  }

  /** Retaining with every element accepted keeps the list as it is. */
  lemma {:induction false} RetainAll<T(!new)>(s: seq<T>, keep: T -> bool)
    requires forall x :: x in s ==> keep(x)
    ensures Retain(s, keep) == s
  {
    if s != [] {
      RetainAll(s[1..], keep);
      assert s == [s[0]] + s[1..];
    }
  }

  /** Two passes of retain are one pass with the conjunction of both predicates. */
  lemma {:induction false} RetainTwice<T(!new)>(s: seq<T>, p: T -> bool, q: T -> bool, both: T -> bool)
    requires forall x :: both(x) == (p(x) && q(x))
    ensures Retain(Retain(s, p), q) == Retain(s, both)
  {
    if s != [] {
      var h, tail := s[0], s[1..];
      assert s == [h] + tail;
      RetainTwice(tail, p, q, both);
      RetainCons(h, tail, p);
      RetainCons(h, tail, both);
      assert both(h) == (p(h) && q(h));
      if p(h) {
        RetainCons(h, Retain(tail, p), q);
        assert Retain(s, p) == [h] + Retain(tail, p);
        assert Retain(Retain(s, p), q) == (if q(h) then [h] else []) + Retain(Retain(tail, p), q);
        assert Retain(s, both) == (if q(h) then [h] else []) + Retain(tail, both);
      } else {
        assert Retain(s, p) == Retain(tail, p);
        assert Retain(s, both) == Retain(tail, both);
      }
    }
  }
}
