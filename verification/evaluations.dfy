/** The evaluation record store: an ordered sequence of records with four
    operations driven by the menu (add, search, filter by grade, and the list
    of grades the filter offers). The session-held table is passed explicitly. */
module Evaluations {
  import opened Grading
  import opened Text
  import opened Sequences

  /** Calendar date of an evaluation; supplied by the caller (the source reads the clock). */
  datatype Date = Date(year: int, month: int, day: int)

  /** One row of the table: Student Name, Subject, Marks, Grade, Evaluation Date. */
  datatype Record = Record(name: string, subject: string, marks: int, grade: char, date: Date)

  type Store = seq<Record>

  datatype Option<T> = None | Some(value: T)

  /** The option the grade selector offers first; it selects every record. */
  const AllGrades: string := "All"

  /** The store's invariant: every grade is the one its marks earn. */
  ghost predicate WellGraded(store: Store) {
    forall i :: 0 <= i < |store| ==> store[i].grade == CalculateGrade(store[i].marks)
  }

  /** Appends the record built from the form; its grade is derived from the marks.
      Blank names and subjects are accepted as they are. */
  function Add(store: Store, name: string, subject: string, marks: int, date: Date): (r: Store)
    ensures |r| == |store| + 1
    ensures r[..|store|] == store
    ensures r[|store|].name == name && r[|store|].subject == subject
    ensures r[|store|].marks == marks && r[|store|].date == date
    ensures r[|store|].grade == CalculateGrade(marks) && IsLetterGrade(r[|store|].grade)
    ensures WellGraded(store) ==> WellGraded(r)
  {
    store + [Record(name, subject, marks, CalculateGrade(marks), date)]
  }

  /** What a row filter keeps: an exact grade, or a search term in name or subject. */
  datatype Criterion = GradeEquals(selected: string) | Mentions(term: string)

  /** Executable test of one record against a criterion. A record's grade is a
      one-letter string in the table, so it equals `selected` only when
      `selected` is that single letter. */
  predicate Keeps(c: Criterion, rec: Record) {
    match c
    case GradeEquals(selected) => [rec.grade] == selected
    case Mentions(term) => ContainsIgnoringCase(rec.name, term) || ContainsIgnoringCase(rec.subject, term)
  }

  /** Reference count of the records of `store` that `c` keeps. */
  function Count(store: Store, c: Criterion): (n: nat)
    ensures n <= |store|
    decreases |store|
  {
    if |store| == 0 then 0
    else (if Keeps(c, store[0]) then 1 else 0) + Count(store[1..], c)
  }

  /** The rows of `store` that `c` keeps, in their original order (a boolean mask
      applied to the table). */
  function Select(store: Store, c: Criterion): (r: Store)
    ensures SubseqOf(r, store)
    ensures forall x :: x in r <==> x in store && Keeps(c, x)
    ensures |r| == Count(store, c)
    decreases |store|
  {
    if |store| == 0 then []
    else
      var rest := Select(store[1..], c);
      assert forall x :: x in store <==> x == store[0] || x in store[1..];
      if Keeps(c, store[0]) then
        assert ([store[0]] + rest)[1..] == rest;
        [store[0]] + rest
      else
        rest
  }

  /** A subsequence made only of kept records is no longer than the count of kept records. */
  lemma {:induction false} KeptSubseqBound(r: Store, store: Store, c: Criterion)
    requires SubseqOf(r, store)
    requires forall x :: x in r ==> Keeps(c, x)
    ensures |r| <= Count(store, c)
    decreases |store|
  {
    if |r| != 0 {
      if r[0] == store[0] && SubseqOf(r[1..], store[1..]) {
        assert r[0] in r;
        KeptSubseqBound(r[1..], store[1..], c);
      } else {
        KeptSubseqBound(r, store[1..], c);
      }
    }
  }

  /** `Select` is the only order-preserving subsequence that holds only kept
      records and as many as there are: the filter's result is fully determined. */
  lemma {:induction false} SelectIsUnique(r: Store, store: Store, c: Criterion)
    requires SubseqOf(r, store)
    requires forall x :: x in r ==> Keeps(c, x)
    requires |r| == Count(store, c)
    ensures r == Select(store, c)
    decreases |store|
  {
    if |r| == 0 {
      assert |Select(store, c)| == 0;
    } else {
      assert forall x :: x in r[1..] ==> x in r;
      if Keeps(c, store[0]) {
        if r[0] == store[0] && SubseqOf(r[1..], store[1..]) {
          SelectIsUnique(r[1..], store[1..], c);
          assert r == [r[0]] + r[1..];
        } else {
          KeptSubseqBound(r, store[1..], c);
          assert false;
        }
      } else {
        assert r[0] in r;
        SelectIsUnique(r, store[1..], c);
      }
    }
  }

  /** Filtering a concatenation filters each part. */
  lemma {:induction false} SelectAppend(a: Store, b: Store, c: Criterion)
    ensures Select(a + b, c) == Select(a, c) + Select(b, c)
    decreases |a|
  {
    if |a| != 0 {
      assert (a + b)[1..] == a[1..] + b;
      SelectAppend(a[1..], b, c);
    } else {
      assert a + b == b;
    }
  }

  /** The search field's match: the term occurs, ignoring case, in name or subject. */
  ghost predicate MatchesTerm(rec: Record, term: string) {
    MentionsIgnoringCase(rec.name, term) || MentionsIgnoringCase(rec.subject, term)
  }

  /** Search by student name or subject. An empty term runs no search (`None`);
      otherwise the result holds exactly the matching records, in store order. */
  function Search(store: Store, term: string): (r: Option<Store>)
    ensures r.None? <==> |term| == 0
    ensures r.Some? ==> SubseqOf(r.value, store)
    ensures r.Some? ==> forall x :: x in r.value <==> x in store && MatchesTerm(x, term)
    ensures r.Some? ==> |r.value| == Count(store, Mentions(term)) <= |store|
  {
    if |term| == 0 then None else Some(Select(store, Mentions(term)))
  }

  /** Filter by grade: "All" shows the whole table; any other choice keeps the
      records with exactly that grade, in store order. */
  function FilterByGrade(store: Store, selected: string): (r: Store)
    ensures selected == AllGrades ==> r == store
    ensures selected != AllGrades ==> SubseqOf(r, store)
    ensures selected != AllGrades ==> forall x :: x in r <==> x in store && [x.grade] == selected
    ensures selected != AllGrades ==> |r| == Count(store, GradeEquals(selected))
    ensures |r| <= |store|
  {
    if selected == AllGrades then store else Select(store, GradeEquals(selected))
  }

  /** Some record in the store has grade `g`. */
  ghost predicate GradePresent(store: Store, g: char) {
    exists k :: 0 <= k < |store| && store[k].grade == g
  }

  /** The grade column of the table. */
  function Grades(store: Store): (gs: seq<char>)
    ensures |gs| == |store|
    ensures forall i :: 0 <= i < |store| ==> gs[i] == store[i].grade
  {
    seq(|store|, i requires 0 <= i < |store| => store[i].grade)
  }

  function Singletons(cs: seq<char>): (r: seq<string>)
    ensures |r| == |cs|
    ensures forall i :: 0 <= i < |cs| ==> r[i] == [cs[i]]
  {
    seq(|cs|, i requires 0 <= i < |cs| => [cs[i]])
  }

  /** The choices of the grade selector: "All", then every grade present in the
      store exactly once, in increasing order. */
  function GradeOptions(store: Store): (r: seq<string>)
    ensures |r| >= 1 && r[0] == AllGrades
    ensures forall i :: 1 <= i < |r| ==> |r[i]| == 1
    ensures forall i, j :: 1 <= i < j < |r| ==> r[i][0] < r[j][0]
    ensures forall g :: [g] in r[1..] <==> GradePresent(store, g)
  {
    var grades := Grades(store);
    var distinct := SortedDistinct(grades);
    var r := [AllGrades] + Singletons(distinct);
    assert r[1..] == Singletons(distinct);
    forall g ensures [g] in r[1..] <==> GradePresent(store, g) {
      if [g] in r[1..] {
        var i :| 0 <= i < |distinct| && r[1..][i] == [g];
        assert distinct[i] in grades;
      }
      if GradePresent(store, g) {
        var k :| 0 <= k < |store| && store[k].grade == g;
        assert grades[k] in grades;
        var j :| 0 <= j < |distinct| && distinct[j] == g;
        assert r[1..][j] == [g];
      }
    }
    r
  }

  /** The letters the grade selector offers after "All", in order. */
  function OfferedLetters(store: Store): (cs: seq<char>)
    ensures GradeOptions(store) == [AllGrades] + Singletons(cs)
    ensures StrictlyIncreasing(cs)
    ensures forall g :: g in cs <==> GradePresent(store, g)
  {
    var grades := Grades(store);
    forall g ensures g in grades <==> GradePresent(store, g) {
      if g in grades {
        var k :| 0 <= k < |grades| && grades[k] == g;
      }
    }
    SortedDistinct(grades)
  }

  /** Adding a record extends every filter's result by that record alone, and
      only when the filter keeps it. */
  lemma SelectAfterAdd(store: Store, name: string, subject: string, marks: int, date: Date, c: Criterion)
    ensures var added := Add(store, name, subject, marks, date);
            Select(added, c) ==
              Select(store, c) + (if Keeps(c, added[|store|]) then [added[|store|]] else [])
  {
    var added := Add(store, name, subject, marks, date);
    assert added == store + [added[|store|]];
    SelectAppend(store, [added[|store|]], c);
    assert [added[|store|]][1..] == [];
  }

  /** Every grade the selector offers, other than "All", selects at least one record. */
  lemma OptionsSelectSomething(store: Store, i: int)
    requires 1 <= i < |GradeOptions(store)|
    ensures FilterByGrade(store, GradeOptions(store)[i]) != []
  {
    var opts := GradeOptions(store);
    assert opts[i] == [opts[i][0]];
    assert [opts[i][0]] in opts[1..] by { assert opts[1..][i - 1] == opts[i]; }
    var k :| 0 <= k < |store| && store[k].grade == opts[i][0];
    assert store[k] in store;
  }

  /** In a well-graded store every offered grade is one of the five letters. */
  lemma OptionsAreLetterGrades(store: Store, i: int)
    requires WellGraded(store)
    requires 1 <= i < |GradeOptions(store)|
    ensures IsLetterGrade(GradeOptions(store)[i][0])
  {
    var opts := GradeOptions(store);
    assert opts[i] == [opts[i][0]];
    assert [opts[i][0]] in opts[1..] by { assert opts[1..][i - 1] == opts[i]; }
    var k :| 0 <= k < |store| && store[k].grade == opts[i][0];
  }

  /** Search ignores the case of its term: terms that lower-case alike find the same records. */
  lemma SearchIgnoresTermCase(store: Store, t1: string, t2: string)
    requires Lower(t1) == Lower(t2)
    ensures Search(store, t1) == Search(store, t2)
  {
    if |t1| != 0 {
      SelectSameKeep(store, Mentions(t1), Mentions(t2));
    }
  }

  /** Two criteria that keep the same records select the same rows. */
  lemma {:induction false} SelectSameKeep(store: Store, c1: Criterion, c2: Criterion)
    requires forall x :: Keeps(c1, x) == Keeps(c2, x)
    ensures Select(store, c1) == Select(store, c2)
    decreases |store|
  {
    if |store| != 0 {
      SelectSameKeep(store[1..], c1, c2);
    }
  }
}
