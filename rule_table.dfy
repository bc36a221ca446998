/**
  The scholarship rule table and what follows from it for every applicant:
  an applicant with the four attributes never makes the evaluator fail and
  one without them always does, a top-merit candidate is always awarded in
  full, and an applicant below the CGPA minimum is always rejected.
 */
module RuleTable {
  import opened RuleModel
  import opened Evaluator

  /** The five rules, in table order. */
  const Table: seq<Rule> := [
    Rule("Top merit candidate", 100,
      [ Condition("cgpa", ">=", 3.7),
        Condition("co_curricular_score", ">=", 80.0),
        Condition("family_income", "<=", 8000.0),
        Condition("disciplinary_actions", "==", 0.0) ],
      Action("AWARD_FULL", "Excellent academic & co-curricular performance, with acceptable need")),
    Rule("Good candidate - partial scholarship", 80,
      [ Condition("cgpa", ">=", 3.3),
        Condition("co_curricular_score", ">=", 60.0),
        Condition("family_income", "<=", 12000.0),
        Condition("disciplinary_actions", "<=", 1.0) ],
      Action("AWARD_PARTIAL", "Good academic & involvement record with moderate need")),
    Rule("Need-based review", 70,
      [ Condition("cgpa", ">=", 2.5),
        Condition("family_income", "<=", 4000.0) ],
      Action("REVIEW", "High need but borderline academic score")),
    Rule("Low CGPA – not eligible", 95,
      [ Condition("cgpa", "<", 2.5) ],
      Action("REJECT", "CGPA below minimum scholarship requirement")),
    Rule("Serious disciplinary record", 90,
      [ Condition("disciplinary_actions", ">=", 2.0) ],
      Action("REJECT", "Too many disciplinary records"))
  ]

  /** The four attributes the table refers to are all present. */
  predicate Complete(a: Applicant)
  {
    "cgpa" in a && "co_curricular_score" in a && "family_income" in a && "disciplinary_actions" in a
  }

  /** The priorities of the table, in order. */
  lemma Priorities()
    ensures |Table| == 5
    ensures Table[0].priority == 100 && Table[1].priority == 80 && Table[2].priority == 70
    ensures Table[3].priority == 95 && Table[4].priority == 90
  {
  }

  /** No rule of the table refers to an attribute outside the four. */
  lemma FieldsOfTable(a: Applicant)
    requires Complete(a)
    ensures forall i, j | 0 <= i < |Table| && 0 <= j < |Table[i].conditions| :: !RaisesAt(Table, a, i, j)
  {
  }

  /** An applicant with the four attributes never makes the evaluator fail. */
  lemma CompleteNeverFails(a: Applicant)
    requires Complete(a)
    ensures Evaluate(Table, a).Ok?
  {
    FieldsOfTable(a);
    EvaluateErrIff(Table, a);
  }

  /** An applicant missing one of the four attributes makes the evaluator
      fail, at the first ordering condition that meets the gap: the first three
      conditions of the top-merit rule, or the `<=` of the partial-scholarship
      rule on disciplinary actions (the top-merit rule tests those with `==`,
      which does not raise). */
  lemma IncompleteFails(a: Applicant)
    ensures "cgpa" !in a ==> Evaluate(Table, a) == Err(UnorderableComparison("cgpa", ">="))
    ensures "cgpa" in a && "co_curricular_score" !in a ==>
      Evaluate(Table, a) == Err(UnorderableComparison("co_curricular_score", ">="))
    ensures "cgpa" in a && "co_curricular_score" in a && "family_income" !in a ==>
      Evaluate(Table, a) == Err(UnorderableComparison("family_income", "<="))
    ensures "cgpa" in a && "co_curricular_score" in a && "family_income" in a && "disciplinary_actions" !in a ==>
      Evaluate(Table, a) == Err(UnorderableComparison("disciplinary_actions", "<="))
    ensures Evaluate(Table, a).Ok? <==> Complete(a)
  {
    var c0 := Table[0].conditions;
    var c1 := Table[1].conditions;
    if "cgpa" !in a {
      assert FirstRaise(c0, a) == Some(UnorderableComparison("cgpa", ">="));
    } else if "co_curricular_score" !in a {
      assert FirstRaise(c0, a) == FirstRaise(c0[1..], a);
      assert FirstRaise(c0[1..], a) == Some(UnorderableComparison("co_curricular_score", ">="));
    } else if "family_income" !in a {
      assert FirstRaise(c0, a) == FirstRaise(c0[1..], a) == FirstRaise(c0[2..], a);
      assert FirstRaise(c0[2..], a) == Some(UnorderableComparison("family_income", "<="));
    } else if "disciplinary_actions" !in a {
      assert FirstRaise(c0, a) == FirstRaise(c0[1..], a) == FirstRaise(c0[2..], a)
        == FirstRaise(c0[3..], a) == FirstRaise(c0[4..], a) == None;
      assert FirstRaise(c1, a) == FirstRaise(c1[1..], a) == FirstRaise(c1[2..], a) == FirstRaise(c1[3..], a);
      assert FirstRaise(c1[3..], a) == Some(UnorderableComparison("disciplinary_actions", "<="));
      assert FirstRaiseIn(Table[1..], a) == Some(UnorderableComparison("disciplinary_actions", "<="));
    } else {
      CompleteNeverFails(a);
    }
  }

  /** Any applicant that satisfies the top-merit rule is awarded in full:
      100 is the highest priority in the table and that rule comes first. The
      rule names all four attributes, and none of its conditions holds on an
      absent field, so such an applicant has all four. */
  lemma TopMeritAwardsFull(a: Applicant)
    requires RuleMatches(Table[0], a)
    ensures Evaluate(Table, a) == Ok(Decision(Some("Top merit candidate"), "AWARD_FULL",
      "Excellent academic & co-curricular performance, with acceptable need"))
  {
    assert Holds(Table[0].conditions[0], a) && Holds(Table[0].conditions[1], a);
    assert Holds(Table[0].conditions[2], a) && Holds(Table[0].conditions[3], a);
    assert Complete(a);
    FieldsOfTable(a);
    Priorities();
    forall j | 0 <= j < |Table| ensures Table[j].priority <= 100 {
      assert j == 0 || j == 1 || j == 2 || j == 3 || j == 4;
    }
    WinnerDecides(Table, a, 0);
  }

  /** Any applicant with a CGPA below 2.5 is rejected by the low-CGPA rule:
      the other rules gated on CGPA need at least 2.5, and the only other rule
      that can match has priority 90, below 95. */
  lemma LowCgpaRejects(a: Applicant)
    requires Complete(a) && a["cgpa"] < 2.5
    ensures Evaluate(Table, a) == Ok(Decision(Some("Low CGPA – not eligible"), "REJECT",
      "CGPA below minimum scholarship requirement"))
  {
    FieldsOfTable(a);
    Priorities();
    assert !Holds(Table[0].conditions[0], a);
    assert !Holds(Table[1].conditions[0], a);
    assert !Holds(Table[2].conditions[0], a);
    assert Holds(Table[3].conditions[0], a);
    forall j | 0 <= j < |Table| && RuleMatches(Table[j], a) ensures Table[j].priority <= 95 {
      assert j == 3 || j == 4;
    }
    WinnerDecides(Table, a, 3);
  }
}
