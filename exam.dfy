/**
 * The `Exam` of src/exam/mod.rs: a list of students reordered and shrunk in
 * place, an optional name and the maximum achievable grade.
 */
module Exams {
  import opened Wrappers
  import opened StudentRecord
  import opened Text
  import opened Sorting
  import opened Filtering

  /** The error kinds of src/error.rs; only which one occurred matters here. */
  datatype ErrorKind = Io | ParseToml | ParseJson | MissingFormat | UnsupportedFormat

  /** A parse error and the path of the file it came from. */
  datatype ParseError = ParseError(kind: ErrorKind, path: string)

  /** What reading one students file gave: its students, or the error. */
  datatype FileRead = Read(students: seq<Entry>) | Failed(error: ParseError)

  /** The test of `filter_by_name`: the lowercased name contains some lowercased query. */
  predicate MatchesQuery(name: string, query: seq<string>, f: Folding)
    ensures query == [] ==> !MatchesQuery(name, query, f)
    ensures (exists q :: q in query && f.toLowercase(q) == []) ==> MatchesQuery(name, query, f)
  {
    exists q :: q in query && Contains(f.toLowercase(name), f.toLowercase(q))
  }

  /** The closure `filter_by_name` hands to `retain`. */
  function NameQuery(query: seq<string>, f: Folding): (keep: Entry -> bool)
    ensures forall e :: keep(e) == MatchesQuery(e.name, query, f)
    ensures query == [] ==> forall e :: !keep(e)
  {
    (e: Entry) => MatchesQuery(e.name, query, f)
  }

  /** No query matches no one, so `filter_by_name` with no queries empties the exam. */
  lemma EmptyQueryKeepsNone(s: seq<Entry>, f: Folding)
    ensures Retain(s, NameQuery([], f)) == []
  {
  }

  /** A needle whose first character is not in the haystack after its start, and which does not start it, is absent. */
  lemma AbsentNeedle(haystack: string, needle: string)
    requires needle != []
    requires !(needle <= haystack)
    requires forall i :: 1 <= i < |haystack| ==> haystack[i] != needle[0]
    ensures !Contains(haystack, needle)
  {
    ContainsIffOccurs(haystack, needle);
    forall i | 0 <= i <= |haystack| - |needle| ensures !OccursAt(haystack, needle, i) {
      if i == 0 {
        assert haystack[..|needle|] != needle;
      } else {
        assert haystack[i..i + |needle|][0] != needle[0];
      }
    }
  }

  /** A needle that differs from the haystack at some position of both does not start it. */
  lemma NotPrefix(haystack: string, needle: string, k: nat)
    requires k < |needle| && k < |haystack| && haystack[k] != needle[k]
    ensures !(needle <= haystack)
  {
  }

  /** None of the doc test's queries occurs in the lowercased name of Jose. */
  lemma JoseMatchesNoQuery()
    ensures !Contains("jose abad martínez", "joan")
    ensures !Contains("jose abad martínez", "jorge")
    ensures !Contains("jose abad martínez", "jim")
  {
    var jose := "jose abad martínez";
    assert forall i :: 1 <= i < |jose| ==> jose[i] != 'j';
    NotPrefix(jose, "joan", 2);
    NotPrefix(jose, "jorge", 2);
    NotPrefix(jose, "jim", 1);
    AbsentNeedle(jose, "joan");
    AbsentNeedle(jose, "jorge");
    AbsentNeedle(jose, "jim");
  }

  /** The queries joan and jim occur in the lowercased names of Joan and David. */
  lemma JoanAndDavidMatch()
    ensures Contains("joan beltrán peris", "joan")
    ensures Contains("david jiménez hidalgo", "jim")
  {
    var david := "david jiménez hidalgo";
    assert david[6] == 'j' && david[7] == 'i' && david[8] == 'm';
    assert david[6..9] == "jim";
    ContainsAt(david, "jim", 6);
  }

  /** What `to_lowercase` makes of the doc test's names and queries. */
  predicate ExampleLowercase(f: Folding)
  {
    && f.toLowercase(Joan.name) == "joan beltrán peris"
    && f.toLowercase(Jose.name) == "jose abad martínez"
    && f.toLowercase(David.name) == "david jiménez hidalgo"
    && f.toLowercase("joan") == "joan" && f.toLowercase("jorge") == "jorge" && f.toLowercase("jim") == "jim"
  }

  /** The doc test's queries. */
  const ExampleQuery: seq<string> := ["joan", "jorge", "jim"]

  lemma JoanMatches(f: Folding)
    requires ExampleLowercase(f)
    ensures NameQuery(ExampleQuery, f)(Joan)
  {
    JoanAndDavidMatch();
    assert ExampleQuery[0] == "joan";
  }

  lemma DavidMatches(f: Folding)
    requires ExampleLowercase(f)
    ensures NameQuery(ExampleQuery, f)(David)
  {
    JoanAndDavidMatch();
    assert ExampleQuery[2] == "jim";
  }

  lemma JoseDoesNotMatch(f: Folding)
    requires ExampleLowercase(f)
    ensures !NameQuery(ExampleQuery, f)(Jose)
  {
    JoseMatchesNoQuery();
    NoneOfThree(Jose.name, "joan", "jorge", "jim", f);
  }

  /** A name containing none of three lowercased queries matches none of them. */
  lemma NoneOfThree(name: string, q0: string, q1: string, q2: string, f: Folding)
    requires !Contains(f.toLowercase(name), f.toLowercase(q0))
    requires !Contains(f.toLowercase(name), f.toLowercase(q1))
    requires !Contains(f.toLowercase(name), f.toLowercase(q2))
    ensures !MatchesQuery(name, [q0, q1, q2], f)
  {
  }

  /** The doc test of `filter_by_name`: the queries joan, jorge and jim keep Joan and David, in order. */
  lemma NameFilterExample(f: Folding)
    requires ExampleLowercase(f)
    ensures Retain([Joan, Jose, David], NameQuery(ExampleQuery, f)) == [Joan, David]
  {
    JoanMatches(f);
    JoseDoesNotMatch(f);
    DavidMatches(f);
    RetainFirstAndLast(Joan, Jose, David, NameQuery(ExampleQuery, f));
  }


  /** The test of `filter_by_file`: some student of the file has the same lowercased name. */
  predicate Listed(name: string, others: seq<Entry>, f: Folding)
    ensures others == [] ==> !Listed(name, others, f)
    ensures (exists o :: o in others && o.name == name) ==> Listed(name, others, f)
  {
    exists o :: o in others && f.toLowercase(o.name) == f.toLowercase(name)
  }

  /** The closure `filter_by_file` hands to `retain` for one file. */
  function InFile(others: seq<Entry>, f: Folding): (keep: Entry -> bool)
    ensures forall e :: keep(e) == Listed(e.name, others, f)
    ensures others == [] ==> forall e :: !keep(e)
  {
    (e: Entry) => Listed(e.name, others, f)
  }

  /**
   * `filter_by_file` over files already read: each file read in turn narrows
   * the students; the first failed read stops the loop with its error and
   * keeps the narrowing done so far.
   */
  function FileFilter(s: seq<Entry>, files: seq<FileRead>, f: Folding): (r: (seq<Entry>, Outcome<ParseError>))
    ensures |r.0| <= |s|
    ensures (forall j :: 0 <= j < |files| ==> files[j].Read?) ==> r.1 == Ok
    ensures r.1.Err? ==> exists j :: 0 <= j < |files| && files[j] == Failed(r.1.error)
    decreases |files|
  {
    if files == [] then (s, Ok)
    else
      match files[0]
      case Failed(e) => (s, Err(e))
      case Read(others) => FileFilter(Retain(s, InFile(others, f)), files[1..], f)
  }

  /** The number of files read successfully before the first failure. */
  function Applied(files: seq<FileRead>): (k: nat)
    ensures k <= |files|
    ensures forall j :: 0 <= j < k ==> files[j].Read?
    ensures k < |files| ==> files[k].Failed?
  {
    if files == [] || files[0].Failed? then 0 else 1 + Applied(files[1..])
  }

  /** One successful read narrows the students and goes on with the remaining files. */
  lemma FileFilterStep(s: seq<Entry>, files: seq<FileRead>, f: Folding)
    requires files != [] && files[0].Read?
    ensures FileFilter(s, files, f) == FileFilter(Retain(s, InFile(files[0].students, f)), files[1..], f)
    ensures Applied(files) == 1 + Applied(files[1..])
  {
  }

  /** The filter succeeds exactly when every file was read, and otherwise reports the first failure. */
  lemma {:induction false} FileFilterOutcome(s: seq<Entry>, files: seq<FileRead>, f: Folding)
    ensures FileFilter(s, files, f).1 == (if Applied(files) == |files| then Ok else Err(files[Applied(files)].error))
    decreases |files|
  {
    if files != [] && files[0].Read? {
      FileFilterStep(s, files, f);
      FileFilterOutcome(Retain(s, InFile(files[0].students, f)), files[1..], f);
      var k := Applied(files[1..]);
      if k < |files[1..]| {
        assert files[1..][k] == files[k + 1];
      }
    }
  }

  /** The name is listed in each file read before the first failure. */
  predicate ListedInEach(name: string, files: seq<FileRead>, f: Folding)
    decreases |files|
  {
    files == [] || files[0].Failed? || (Listed(name, files[0].students, f) && ListedInEach(name, files[1..], f))
  }

  /** `ListedInEach` says: listed in every one of the first `Applied(files)` files. */
  lemma {:induction false} ListedInEachIndexed(name: string, files: seq<FileRead>, f: Folding)
    ensures ListedInEach(name, files, f) <==> forall j :: 0 <= j < Applied(files) ==> Listed(name, files[j].students, f)
    decreases |files|
  {
    if files != [] && files[0].Read? {
      ListedInEachIndexed(name, files[1..], f);
      assert Applied(files) == 1 + Applied(files[1..]);
      assert forall j :: 0 <= j < Applied(files[1..]) ==> files[1..][j] == files[j + 1];
      if forall j :: 0 <= j < Applied(files) ==> Listed(name, files[j].students, f) {
        forall j | 0 <= j < Applied(files[1..]) ensures Listed(name, files[1..][j].students, f) {
          assert files[1..][j] == files[j + 1];
        }
      }
      if ListedInEach(name, files, f) {
        forall j | 0 <= j < Applied(files) ensures Listed(name, files[j].students, f) {
          if j > 0 {
            assert files[1..][j - 1] == files[j];
          }
        }
      }
    }
  }

  /**
   * The students left are those listed, by lowercased name, in every file read
   * before the first failure: the intersection of the files.
   */
  lemma {:induction false} FileFilterMembers(s: seq<Entry>, files: seq<FileRead>, f: Folding, e: Entry)
    ensures e in FileFilter(s, files, f).0 <==> e in s && ListedInEach(e.name, files, f)
    decreases |files|
  {
    if files != [] && files[0].Read? {
      var keep := InFile(files[0].students, f);
      var rest := Retain(s, keep);
      FileFilterStep(s, files, f);
      FileFilterMembers(rest, files[1..], f, e);
      assert e in rest <==> e in s && keep(e);
    }
  }

  /** The closure that keeps a student listed in each file read before the first failure. */
  function InEachFile(files: seq<FileRead>, f: Folding): Entry -> bool
  {
    (e: Entry) => ListedInEach(e.name, files, f)
  }

  /**
   * The whole loop is one `retain` with the conjunction of the per-file
   * tests: the students left, with their multiplicities and order, are
   * exactly those a single pass would keep.
   */
  lemma {:induction false} FileFilterIsRetain(s: seq<Entry>, files: seq<FileRead>, f: Folding)
    ensures FileFilter(s, files, f).0 == Retain(s, InEachFile(files, f))
    decreases |files|
  {
    if files == [] || files[0].Failed? {
      RetainAll(s, InEachFile(files, f));
    } else {
      var first := InFile(files[0].students, f);
      FileFilterStep(s, files, f);
      FileFilterIsRetain(Retain(s, first), files[1..], f);
      RetainTwice(s, first, InEachFile(files[1..], f), InEachFile(files, f));
    }
  }

  /** The students left keep their original relative order. */
  lemma {:induction false} FileFilterSublist(s: seq<Entry>, files: seq<FileRead>, f: Folding)
    ensures Sublist(FileFilter(s, files, f).0, s)
    decreases |files|
  {
    if files == [] || files[0].Failed? {
      SublistReflexive(s);
    } else {
      var rest := Retain(s, InFile(files[0].students, f));
      FileFilterSublist(rest, files[1..], f);
      RetainSublist(s, InFile(files[0].students, f));
      SublistTransitive(FileFilter(rest, files[1..], f).0, rest, s);
    }
  }

  /** The highest rank shown on every row: the largest `rank.unwrap_or(0)`, or 0 with no students. */
  function HighestRank(entries: seq<Entry>): (h: nat)
    ensures forall e :: e in entries ==> e.rank.UnwrapOr(0) <= h
    ensures entries == [] ==> h == 0
    ensures entries != [] ==> exists e :: e in entries && e.rank.UnwrapOr(0) == h
  {
    if entries == [] then 0
    else
      var rest := HighestRank(entries[1..]);
      var r := entries[0].rank.UnwrapOr(0);
      assert entries == [entries[0]] + entries[1..];
      if r >= rest then r else rest
  }

  /** What one row of the students table shows. */
  datatype Row = Row(name: string, grade: real, passed: bool, percentile: real, rank: nat, highestRank: nat)

  /**
   * The per-row decisions of `Exam::students`: a grade passes when it reaches
   * half the configured maximum grade; a missing percentile or rank shows as 0.
   */
  function ExamRows(entries: seq<Entry>, maxGrade: real): (rows: seq<Row>)
    ensures |rows| == |entries|
    ensures forall i :: 0 <= i < |rows| ==>
              && rows[i].name == entries[i].name
              && rows[i].grade == entries[i].grade
              && (rows[i].passed <==> entries[i].grade >= maxGrade / 2.0)
              && rows[i].percentile == entries[i].percentile.UnwrapOr(0.0)
              && rows[i].rank == entries[i].rank.UnwrapOr(0)
              && rows[i].highestRank == HighestRank(entries)
  {
    var highest := HighestRank(entries);
    seq(|entries|, i requires 0 <= i < |entries| =>
      var e := entries[i];
      Row(e.name, e.grade, e.grade >= maxGrade / 2.0, e.percentile.UnwrapOr(0.0), e.rank.UnwrapOr(0), highest))
  }

  /** Every row shows the same highest rank, which no row's rank exceeds. */
  lemma RowsShareHighestRank(entries: seq<Entry>, maxGrade: real, i: nat, j: nat)
    requires i < |entries| && j < |entries|
    ensures ExamRows(entries, maxGrade)[i].highestRank == ExamRows(entries, maxGrade)[j].highestRank
    ensures ExamRows(entries, maxGrade)[i].rank <= ExamRows(entries, maxGrade)[i].highestRank
  {
    assert entries[i] in entries;
  }

  /** A grade at least as high as a passing grade passes too. */
  lemma PassIsMonotone(entries: seq<Entry>, maxGrade: real, i: nat, j: nat)
    requires i < |entries| && j < |entries|
    requires ExamRows(entries, maxGrade)[i].passed && entries[j].grade >= entries[i].grade
    ensures ExamRows(entries, maxGrade)[j].passed
  {
  }

  /** An exam: its students, an optional name and the maximum achievable grade. */
  class Exam {
    var students: seq<Entry>
    var name: Option<string>
    var maxGrade: real

    /**
     * `Exam::new`: attaches the statistics to the students (a function of the
     * crate that is not part of this model, so a parameter) and takes 10 as
     * the maximum grade and no name.
     */
    constructor(students: seq<Entry>, attachStatistics: seq<Entry> -> seq<Entry>)
      ensures this.students == attachStatistics(students)
      ensures name == None && maxGrade == 10.0
    {
      this.students := attachStatistics(students);
      name := None;
      maxGrade := 10.0;
    }

    method SetMaxGrade(maxGrade: real)
      modifies this`maxGrade
      ensures this.maxGrade == maxGrade
      ensures students == old(students) && name == old(name)
    {
      this.maxGrade := maxGrade;
    }

    method SetName(name: string)
      modifies this`name
      ensures this.name == Some(name)
      ensures students == old(students) && maxGrade == old(maxGrade)
    {
      this.name := Some(name);
    }

    /** `sort_by_alphabetic_order`: the stable sort by the folded name. */
    method SortByAlphabeticOrder(f: Folding)
      modifies this`students
      ensures students == StableSort(old(students), ByName(f))
      ensures name == old(name) && maxGrade == old(maxGrade)
    {
      students := StableSort(students, ByName(f));
    }

    /** `sort_by_grade`: the name sort, then the stable sort by descending grade. */
    method SortByGrade(f: Folding)
      modifies this`students
      ensures students == GradeOrder(old(students), f)
      ensures name == old(name) && maxGrade == old(maxGrade)
    {
      SortByAlphabeticOrder(f);
      students := StableSort(students, ByGradeDescending);
    }

    /** `filter_by_name`: keeps the students whose name matches at least one query. */
    method FilterByName(query: seq<string>, f: Folding)
      modifies this`students
      ensures students == Retain(old(students), NameQuery(query, f))
      ensures name == old(name) && maxGrade == old(maxGrade)
    {
      students := Retain(students, NameQuery(query, f));
    }

    /**
     * `filter_by_file`: the loop over the files, each read narrowing the
     * students to those it lists; a failed read ends the loop with its error.
     */
    method FilterByFile(files: seq<FileRead>, f: Folding) returns (outcome: Outcome<ParseError>)
      modifies this`students
      ensures (students, outcome) == FileFilter(old(students), files, f)
      ensures name == old(name) && maxGrade == old(maxGrade)
    {
      var i := 0;
      while i < |files|
        invariant 0 <= i <= |files|
        invariant FileFilter(students, files[i..], f) == FileFilter(old(students), files, f)
      {
        match files[i]
        case Failed(e) =>
          return Err(e);
        case Read(others) =>
          assert files[i..][1..] == files[i + 1..];
          students := Retain(students, InFile(others, f));
        i := i + 1;
      }
      return Ok;
    }
  }
}
