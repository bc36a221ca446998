/**
  Six reference applicants and the decisions the rule table gives them.
 */
module Scenarios {
  import opened RuleModel
  import opened Evaluator
  import opened RuleTable

  function Applicant4(cgpa: real, coCurricular: real, income: real, disciplinary: real): (a: Applicant)
    ensures Complete(a)
    ensures a["cgpa"] == cgpa && a["co_curricular_score"] == coCurricular
    ensures a["family_income"] == income && a["disciplinary_actions"] == disciplinary
  {
    map["cgpa" := cgpa, "co_curricular_score" := coCurricular,
        "family_income" := income, "disciplinary_actions" := disciplinary]
  }

  /** An excellent, low-income applicant with a clean record is awarded in full. */
  lemma TopMeritScenario()
    ensures Evaluate(Table, Applicant4(3.8, 85.0, 7000.0, 0.0)) == Ok(Decision(Some("Top merit candidate"),
      "AWARD_FULL", "Excellent academic & co-curricular performance, with acceptable need"))
  {
    var a := Applicant4(3.8, 85.0, 7000.0, 0.0);
    assert RuleMatches(Table[0], a);
    TopMeritAwardsFull(a);
  }

  /** A good applicant of moderate need gets the partial scholarship. */
  lemma PartialScenario()
    ensures Evaluate(Table, Applicant4(3.4, 65.0, 10000.0, 1.0)) == Ok(Decision(Some("Good candidate - partial scholarship"),
      "AWARD_PARTIAL", "Good academic & involvement record with moderate need"))
  {
    var a := Applicant4(3.4, 65.0, 10000.0, 1.0);
    FieldsOfTable(a);
    Priorities();
    assert !Holds(Table[0].conditions[0], a);
    assert RuleMatches(Table[1], a);
    assert !Holds(Table[2].conditions[1], a);
    assert !Holds(Table[3].conditions[0], a);
    assert !Holds(Table[4].conditions[0], a);
    assert IsWinner(Table, a, 1);
    WinnerDecides(Table, a, 1);
  }

  /** A borderline applicant in high need is sent to review. */
  lemma ReviewScenario()
    ensures Evaluate(Table, Applicant4(2.6, 10.0, 3000.0, 0.0)) == Ok(Decision(Some("Need-based review"),
      "REVIEW", "High need but borderline academic score"))
  {
    var a := Applicant4(2.6, 10.0, 3000.0, 0.0);
    FieldsOfTable(a);
    Priorities();
    assert !Holds(Table[0].conditions[0], a);
    assert !Holds(Table[1].conditions[0], a);
    assert RuleMatches(Table[2], a);
    assert !Holds(Table[3].conditions[0], a);
    assert !Holds(Table[4].conditions[0], a);
    assert IsWinner(Table, a, 2);
    WinnerDecides(Table, a, 2);
  }

  /** An applicant below the CGPA minimum is rejected. */
  lemma LowCgpaScenario()
    ensures Evaluate(Table, Applicant4(2.0, 50.0, 5000.0, 0.0)) == Ok(Decision(Some("Low CGPA – not eligible"),
      "REJECT", "CGPA below minimum scholarship requirement"))
  {
    LowCgpaRejects(Applicant4(2.0, 50.0, 5000.0, 0.0));
  }

  /** An excellent applicant with two disciplinary actions is rejected: the
      need-based rule matches too, but at priority 70 it loses to 90. */
  lemma DisciplinaryScenario()
    ensures Evaluate(Table, Applicant4(3.9, 90.0, 1000.0, 2.0)) == Ok(Decision(Some("Serious disciplinary record"),
      "REJECT", "Too many disciplinary records"))
  {
    var a := Applicant4(3.9, 90.0, 1000.0, 2.0);
    FieldsOfTable(a);
    Priorities();
    assert !Holds(Table[0].conditions[3], a);
    assert !Holds(Table[1].conditions[3], a);
    assert RuleMatches(Table[2], a);
    assert !Holds(Table[3].conditions[0], a);
    assert RuleMatches(Table[4], a);
    assert IsWinner(Table, a, 4);
    WinnerDecides(Table, a, 4);
  }

  /** An applicant who satisfies no rule gets the no-match sentinel. */
  lemma NoMatchScenario()
    ensures Evaluate(Table, Applicant4(3.0, 40.0, 20000.0, 0.0)) == Ok(NoDecision)
  {
    var a := Applicant4(3.0, 40.0, 20000.0, 0.0);
    FieldsOfTable(a);
    assert !Holds(Table[0].conditions[0], a);
    assert !Holds(Table[1].conditions[0], a);
    assert !Holds(Table[2].conditions[1], a);
    assert !Holds(Table[3].conditions[0], a);
    assert !Holds(Table[4].conditions[0], a);
    forall i | 0 <= i < |Table| ensures !RuleMatches(Table[i], a) {
      assert i == 0 || i == 1 || i == 2 || i == 3 || i == 4;
    }
    NoDecisionIff(Table, a);
  }
}
