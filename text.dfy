/**
 * The string operations the exam relies on: Rust's ordering of `String`, the
 * substring test `str::contains`, and the two foreign case and accent
 * foldings, which stay uninterpreted.
 */
module Text {

  /**
   * `to_lowercase` and `unidecode` are foreign library calls; the model takes
   * them as given functions on strings and assumes nothing about them.
   */
  datatype Folding = Folding(toLowercase: string -> string, unidecode: string -> string)

  /** The key `sort_by_alphabetic_order` sorts by: `unidecode(&name.to_lowercase())`. */
  function SortKey(f: Folding, name: string): string
  {
    f.unidecode(f.toLowercase(name))
  }

  /** Names that lowercase alike share a sort key, so the name sort ignores case. */
  lemma SortKeyIgnoresCase(f: Folding, a: string, b: string)
    requires f.toLowercase(a) == f.toLowercase(b)
    ensures SortKey(f, a) == SortKey(f, b)
  {
  }

  /**
   * Rust's `Ord` on strings: lexicographic, character by character, a prefix
   * first. UTF-8 byte order and code point order agree, so comparing
   * characters is comparing bytes.
   */
  predicate LexLe(a: string, b: string)
    ensures a <= b ==> LexLe(a, b)
  {
    a == [] || (b != [] && (a[0] < b[0] || (a[0] == b[0] && LexLe(a[1..], b[1..]))))
  }

  lemma {:induction false} LexLeReflexive(a: string)
    ensures LexLe(a, a)
  {
    if a != [] {
      LexLeReflexive(a[1..]);
    }
  }

  lemma {:induction false} LexLeTotal(a: string, b: string)
    ensures LexLe(a, b) || LexLe(b, a)
  {
    if a != [] && b != [] && a[0] == b[0] {
      LexLeTotal(a[1..], b[1..]);
    }
  }

  lemma {:induction false} LexLeAntisymmetric(a: string, b: string)
    requires LexLe(a, b) && LexLe(b, a)
    ensures a == b
  {
    if a != [] && b != [] {
      LexLeAntisymmetric(a[1..], b[1..]);
      assert a == [a[0]] + a[1..] && b == [b[0]] + b[1..];
    }
  }

  lemma {:induction false} LexLeTransitive(a: string, b: string, c: string)
    requires LexLe(a, b) && LexLe(b, c)
    ensures LexLe(a, c)
  {
    if a != [] && b != [] && c != [] && a[0] == b[0] == c[0] {
      LexLeTransitive(a[1..], b[1..], c[1..]);
    }
  }

  /** `str::contains` with a string pattern: the needle is a prefix of some suffix of the haystack. */
  predicate Contains(haystack: string, needle: string)
    ensures Contains(haystack, needle) ==> |needle| <= |haystack|
  {
    needle <= haystack || (haystack != [] && Contains(haystack[1..], needle))
  }

  /** The needle occurs in the haystack starting at position i. */
  predicate OccursAt(haystack: string, needle: string, i: int)
  {
    0 <= i <= |haystack| - |needle| && haystack[i..i + |needle|] == needle
  }

  /** The recursive test agrees with "the needle occurs at some position"; the empty needle is everywhere. */
  lemma {:induction false} ContainsIffOccurs(haystack: string, needle: string)
    ensures Contains(haystack, needle) <==> exists i :: OccursAt(haystack, needle, i)
  {
    if needle <= haystack {
      assert OccursAt(haystack, needle, 0);
    } else if haystack == [] {
      assert forall i :: !OccursAt(haystack, needle, i);
    } else {
      var tail := haystack[1..];
      ContainsIffOccurs(tail, needle);
      if exists i :: OccursAt(haystack, needle, i) {
        var i :| OccursAt(haystack, needle, i);
        assert i != 0;
        OccursShift(haystack, needle, i - 1);
      }
      if exists i :: OccursAt(tail, needle, i) {
        var i :| OccursAt(tail, needle, i);
        OccursShift(haystack, needle, i);
      }
    }
  }

  /** Dropping the first character moves every occurrence one position left. */
  lemma OccursShift(haystack: string, needle: string, i: nat)
    requires haystack != []
    ensures OccursAt(haystack, needle, i + 1) <==> OccursAt(haystack[1..], needle, i)
  {
    if i + 1 <= |haystack| - |needle| {
      assert haystack[i + 1..i + 1 + |needle|] == haystack[1..][i..i + |needle|];
    }
  }

  /** A needle found at some position is contained. */
  lemma ContainsAt(haystack: string, needle: string, i: int)
    requires OccursAt(haystack, needle, i)
    ensures Contains(haystack, needle)
  {
    ContainsIffOccurs(haystack, needle);
  }
}
