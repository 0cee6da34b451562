/** Concrete scenarios for the record store, worked through the model. */
module Scenarios {
  import opened Grading
  import opened Text
  import opened Sequences
  import opened Evaluations

  const Day := Date(2024, 1, 15)

  /** Grades A, B, C, B: filtering on "B" yields the two B records in their order. */
  lemma FilterScenario()
    ensures var s := Add(Add(Add(Add([], "Ann", "Math", 95, Day), "Ben", "Art", 80, Day),
                             "Cy", "Art", 65, Day), "Di", "Math", 76, Day);
            FilterByGrade(s, "B") == [s[1], s[3]] && FilterByGrade(s, AllGrades) == s
  {
    var s := Add(Add(Add(Add([], "Ann", "Math", 95, Day), "Ben", "Art", 80, Day),
                     "Cy", "Art", 65, Day), "Di", "Math", 76, Day);
    var expected := [s[1], s[3]];
    assert SubseqOf(expected, s) by {
      assert SubseqOf(expected[1..], s[3..]);
      assert SubseqOf(expected[1..], s[2..]);
      assert SubseqOf(expected, s[1..]);
    }
    assert Count(s[3..], GradeEquals("B")) == 1;
    assert Count(s[2..], GradeEquals("B")) == 1;
    assert Count(s[1..], GradeEquals("B")) == 2;
    SelectIsUnique(expected, s, GradeEquals("B"));
  }

  /** Grades F, A, C, A: the selector offers "All", "A", "C", "F". Only the
      grades present and the uniqueness of a strictly increasing list are used. */
  lemma OptionsScenario(s: Store)
    requires |s| == 4
    requires s[0].grade == 'F' && s[1].grade == 'A' && s[2].grade == 'C' && s[3].grade == 'A'
    ensures GradeOptions(s) == ["All", "A", "C", "F"]
  {
    var letters := OfferedLetters(s);
    forall g ensures g in letters <==> g in ['A', 'C', 'F'] {
      if GradePresent(s, g) {
        var k :| 0 <= k < |s| && s[k].grade == g;
        if k == 0 { assert g == 'F'; } else if k == 1 { assert g == 'A'; }
        else if k == 2 { assert g == 'C'; } else { assert k == 3; assert g == 'A'; }
      }
      if g == 'A' { assert s[1].grade == g; }
      if g == 'C' { assert s[2].grade == g; }
      if g == 'F' { assert s[0].grade == g; }
    }
    StrictlyIncreasingUnique(letters, ['A', 'C', 'F']);
    assert Singletons(letters) == ["A", "C", "F"];
  }

  /** A term whose first character, lower-cased, is absent from the lower-cased
      field does not occur in it. */
  lemma AbsentLead(field: string, term: string)
    requires |term| > 0 && Lower(term)[0] !in Lower(field)
    ensures !ContainsIgnoringCase(field, term)
  {
    var pat, s := Lower(term), Lower(field);
    forall i | 0 <= i <= |s| ensures !(pat <= s[i..]) {
      if i < |s| {
        assert s[i..][0] == s[i] && s[i] in s;
      }
    }
  }

  const Alice := Record("Alice Smith", "Math", 91, 'A', Day)
  const Bob := Record("Bob", "Physics", 70, 'C', Day)

  lemma AliceMatchesAlice()
    ensures ContainsIgnoringCase("Alice Smith", "alice")
  {
    assert Lower("alice") == "alice";
    assert Lower("Alice Smith") == "alice smith";
    assert "alice" <= "alice smith";
  }

  lemma AliceMissesBob()
    ensures !ContainsIgnoringCase("Bob", "alice")
  {
    assert Lower("alice")[0] == 'a';
    assert Lower("Bob") == "bob";
    AbsentLead("Bob", "alice");
  }

  lemma AliceMissesPhysics()
    ensures !ContainsIgnoringCase("Physics", "alice")
  {
    assert Lower("alice")[0] == 'a';
    assert Lower("Physics") == "physics";
    AbsentLead("Physics", "alice");
  }

  lemma PhyMissesAliceSmith()
    ensures !ContainsIgnoringCase("Alice Smith", "phy")
  {
    assert Lower("phy")[0] == 'p';
    assert Lower("Alice Smith") == "alice smith";
    AbsentLead("Alice Smith", "phy");
  }

  lemma PhyMissesMath()
    ensures !ContainsIgnoringCase("Math", "phy")
  {
    assert Lower("phy")[0] == 'p';
    assert Lower("Math") == "math";
    AbsentLead("Math", "phy");
  }

  lemma PhyMatchesBob()
    ensures ContainsIgnoringCase("Physics", "phy")
  {
    assert Lower("phy") == "phy";
    assert Lower("Physics") == "physics";
    assert "phy" <= "physics";
  }

  lemma KeepsForAlice()
    ensures Keeps(Mentions("alice"), Alice) && !Keeps(Mentions("alice"), Bob)
  {
    AliceMatchesAlice();
    AliceMissesBob();
    AliceMissesPhysics();
  }

  lemma KeepsForPhy()
    ensures !Keeps(Mentions("phy"), Alice) && Keeps(Mentions("phy"), Bob)
  {
    PhyMissesAliceSmith();
    PhyMissesMath();
    PhyMatchesBob();
  }

  /** Of two records, a filter that keeps exactly one returns that one alone. */
  lemma SelectPair(c: Criterion, a: Record, b: Record)
    ensures Keeps(c, a) && !Keeps(c, b) ==> Select([a, b], c) == [a]
    ensures !Keeps(c, a) && Keeps(c, b) ==> Select([a, b], c) == [b]
  {
    assert [a, b][1..] == [b];
    assert [b][1..] == [];
  }

  /** "alice" finds Alice Smith by name; Bob matches in neither field. */
  lemma SearchByName()
    ensures Search([Alice, Bob], "alice") == Some([Alice])
  {
    KeepsForAlice();
    SelectPair(Mentions("alice"), Alice, Bob);
  }

  /** "phy" finds Bob by subject; Alice matches in neither field. */
  lemma SearchBySubject()
    ensures Search([Alice, Bob], "phy") == Some([Bob])
  {
    KeepsForPhy();
    SelectPair(Mentions("phy"), Alice, Bob);
  }
}
