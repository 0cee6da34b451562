# Evaluation records: a Dafny model

This project models the data logic of a small evaluation manager. Users enter student
evaluations (name, subject, marks). The program derives a letter grade from the marks,
keeps the entries in an in-memory table, and lets users search and filter that table.
The model covers:

- the grade calculator `calculate_grade`;
- the four data operations that `main` carries out on the session's table:
  - appending a record;
  - searching by name or subject;
  - building the list of grade choices;
  - filtering by grade.

The session-held DataFrame is modelled as an explicit `seq<Record>` (`Evaluations.Store`).
Every operation is a pure function of that sequence. Modules:

- `Grading` (`grading.dfy`): the threshold table, its exact bands, its boundaries and its
  monotonicity.
- `Text` (`text.dfy`): ASCII lower-casing and an executable substring test, proved equal to
  the "occurs at some position" definition.
- `Sequences` (`sequences.dfy`): order-preserving subsequences, and `sorted(set(...))` over
  characters (insertion into a strictly increasing sequence), with a proof that a strictly
  increasing sequence is determined by its elements.
- `Evaluations` (`evaluations.dfy`): `Record`, `Add`, `Search`, `FilterByGrade` and
  `GradeOptions`. Both row filters go through one boolean-mask function `Select`. That
  function is characterised as the unique order-preserving subsequence that holds only
  kept rows, as many as the store has.
- `Scenarios` (`scenarios.dfy`): the worked examples (filtering on B, the option list for
  grades F/A/C/A, searching "alice" and "phy"), each derived from the contracts.

## Model

| member | source | states |
|---|---|---|
| Grading.CalculateGrade | app.py:11-21 | Total on all integers; the result is always one of A, B, C, D, F; A exactly when marks >= 90, B exactly on 75..89, C on 60..74, D on 40..59, F below 40 (each band in both directions) |
| Grading.Boundaries | app.py:12-21 | At each boundary 90/89, 75/74, 60/59, 40/39 the floor earns its grade and one mark less earns the next lower grade |
| Grading.GradeBand | app.py:12-21 | A passing grade is earned by exactly the marks from its floor up to, but excluding, the floor of the grade above |
| Grading.GradeMonotone | app.py:12-21 | More marks never give a worse grade: m1 <= m2 implies grade(m2) <= grade(m1) in letter order, which is merit order |
| Evaluations.Add | app.py:40-48 | The store grows by exactly one. Earlier records are unchanged. The new last record carries the given name, subject, marks and date, and the grade its marks earn. The invariant "every grade is its marks' grade" is preserved |
| Evaluations.Select | app.py:64-67 | A boolean-mask filter returns an order-preserving subsequence of the store. A record is in it iff it is in the store and the criterion keeps it. Its length is the number of kept rows |
| Evaluations.SelectIsUnique | app.py:64-67 | Any order-preserving subsequence that holds only kept rows, as many as the store has, equals the filter's result, so the contract of `Select` pins it down |
| Evaluations.SelectAppend | app.py:48 | Filtering a store extended at the end equals filtering the old store, followed by filtering the new part |
| Evaluations.Search | app.py:63-67 | An empty term runs no search. A non-empty term returns an order-preserving subsequence of the store, no longer than the store. A record is included iff the lower-cased term occurs in its lower-cased name or lower-cased subject |
| Evaluations.SearchIgnoresTermCase | app.py:65-66 | Two terms that lower-case to the same text find the same records |
| Evaluations.FilterByGrade | app.py:76-78 | "All" returns the store unchanged. Any other choice returns an order-preserving subsequence holding exactly the records whose one-letter grade equals the choice. The result is never longer than the store |
| Evaluations.GradeOptions | app.py:73 | The option list starts with "All". Every other entry is a single letter, and the letters strictly increase, so there are no duplicates. A letter is offered iff some record in the store has that grade |
| Sequences.SortedDistinct | app.py:73 | The sorted distinct values of a column are strictly increasing and hold exactly the column's values |
| Sequences.StrictlyIncreasingUnique | app.py:73 | Two strictly increasing sequences with the same elements are equal, so the sorted distinct grades have exactly one possible value |
| Text.Occurs | app.py:65-66 | The executable substring test is true iff the pattern occurs at some position of the text |
| Evaluations.SelectAfterAdd | app.py:48 | After an add, every filter's result is the old result, plus the new record at the end exactly when the filter keeps it |
| Evaluations.OptionsSelectSomething | app.py:73-78 | Filtering on any offered grade other than "All" returns at least one record |
| Evaluations.OptionsAreLetterGrades | app.py:73 | In a store built by `Add`, every offered grade is one of A, B, C, D, F |
| Scenarios.FilterScenario | app.py:76-78 | With grades A, B, C, B, filtering on "B" gives the second and fourth records in that order, and "All" gives the whole store |
| Scenarios.OptionsScenario | app.py:73 | With grades F, A, C, A, the options are "All", "A", "C", "F" |
| Scenarios.SearchByName | app.py:63-67 | Searching "alice" in {Alice Smith/Math, Bob/Physics} returns exactly the Alice Smith record |
| Scenarios.SearchBySubject | app.py:63-67 | Searching "phy" in the same store returns exactly the Bob record, which matches on its subject |

## Left out

- Streamlit UI: page setup, the sidebar menu, widgets, success/info/warning messages and table rendering (app.py:24-28, 34-39, 49, 53-57, 68, 74, 80-83). This is presentation only. "View Records" shows the store unchanged, so it has no logic to model.
- Session-state initialisation and the pandas DataFrame (app.py:5-9, 30). The table is the `Store` sequence, passed in and returned explicitly.
- The clock (`datetime.date.today()`, app.py:46). The date is a parameter of `Add`.
- The marks range 0..100 is enforced by the number widget (app.py:37), not by the data logic. `Add` and `CalculateGrade` accept any integer, and the grade is defined for all of them.
- Evaluations.Search: pandas `str.contains` treats the term as a regular expression by default. The model treats the term as a plain substring. A term with regex metacharacters (such as `.` or `(`) can therefore match differently in the source, or raise an error there.
- Evaluations.Search: case is ignored by ASCII lower-casing only. Unicode case folding (for example of accented letters) is not modelled.
- Missing (NaN) cell values are not modelled. Every record built by `Add` has string name and subject fields.
