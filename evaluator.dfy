/**
  The rule evaluator: which conditions hold for an applicant, which rules
  match, which matched rule is selected, and the decision returned; first as
  functions, then as the loop the evaluator runs, proved equal to them.
 */
module Evaluator {
  import opened RuleModel

  /** `applicant.get(field)`: the value, or `None` when the field is absent. */
  function Lookup(a: Applicant, field: string): (v: Option<real>)
    ensures v.Some? <==> field in a
    ensures v.Some? ==> v.value == a[field]
  {
    if field in a then Some(a[field]) else None
  }

  /** A condition raises when an ordering operator meets an absent field. */
  predicate Raises(c: Condition, a: Applicant)
  {
    Lookup(a, c.field).None? && OpOf(c.symbol).IsOrdering()
  }

  function ErrorOf(c: Condition): EvalError
  {
    UnorderableComparison(c.field, c.symbol)
  }

  /** Whether a condition that does not raise leaves the rule eligible. With
      the field absent, `None == v` is false and an unrecognised operator is
      never evaluated. */
  predicate Holds(c: Condition, a: Applicant)
  {
    match Lookup(a, c.field)
    case Some(x) => Compare(OpOf(c.symbol), x, c.value)
    case None => OpOf(c.symbol).Unrecognised?
  }

  /** A rule matches when every one of its conditions holds. */
  predicate RuleMatches(r: Rule, a: Applicant)
  {
    forall k | 0 <= k < |r.conditions| :: Holds(r.conditions[k], a)
  }

  /** The error of the first raising condition of `cs`, if any. */
  function FirstRaise(cs: seq<Condition>, a: Applicant): Option<EvalError>
  {
    if cs == [] then None
    else if Raises(cs[0], a) then Some(ErrorOf(cs[0]))
    else FirstRaise(cs[1..], a)
  }

  /** `FirstRaise` finds nothing exactly when no condition raises, and
      otherwise the error of a raising condition that no earlier one precedes. */
  lemma {:induction false} FirstRaiseIsFirst(cs: seq<Condition>, a: Applicant)
    ensures FirstRaise(cs, a).None? <==> forall k | 0 <= k < |cs| :: !Raises(cs[k], a)
    ensures FirstRaise(cs, a).Some? ==> exists k | 0 <= k < |cs| ::
      && Raises(cs[k], a)
      && FirstRaise(cs, a).value == ErrorOf(cs[k])
      && forall m | 0 <= m < k :: !Raises(cs[m], a)
  {
    if cs != [] && !Raises(cs[0], a) {
      FirstRaiseIsFirst(cs[1..], a);
      assert forall k | 1 <= k < |cs| :: cs[k] == cs[1..][k - 1];
      if FirstRaise(cs, a).Some? {
        var k :| 0 <= k < |cs[1..]| && Raises(cs[1..][k], a) && FirstRaise(cs, a).value == ErrorOf(cs[1..][k])
          && forall m | 0 <= m < k :: !Raises(cs[1..][m], a);
        assert Raises(cs[k + 1], a);
      }
    }
  }

  /** Condition `j` of rule `i` exists and raises. */
  predicate RaisesAt(rs: seq<Rule>, a: Applicant, i: int, j: int)
  {
    0 <= i < |rs| && 0 <= j < |rs[i].conditions| && Raises(rs[i].conditions[j], a)
  }

  /** Rule `i` of a table without its first rule is rule `i + 1` of the table. */
  lemma RaisesAtTail(rs: seq<Rule>, a: Applicant)
    requires rs != []
    ensures forall i, j :: RaisesAt(rs[1..], a, i, j) <==> i >= 0 && RaisesAt(rs, a, i + 1, j)
  {
  }

  /** The error of the first raising condition met in scan order, rule by rule
      and within a rule condition by condition. */
  function FirstRaiseIn(rs: seq<Rule>, a: Applicant): Option<EvalError>
  {
    if rs == [] then None
    else match FirstRaise(rs[0].conditions, a)
      case Some(e) => Some(e)
      case None => FirstRaiseIn(rs[1..], a)
  }

  /** `FirstRaiseIn` finds nothing exactly when no condition of any rule raises. */
  lemma {:induction false} FirstRaiseInNone(rs: seq<Rule>, a: Applicant)
    ensures FirstRaiseIn(rs, a).None? <==> forall i, j :: !RaisesAt(rs, a, i, j)
  {
    if rs != [] {
      FirstRaiseIsFirst(rs[0].conditions, a);
      assert forall j :: RaisesAt(rs, a, 0, j) <==> 0 <= j < |rs[0].conditions| && Raises(rs[0].conditions[j], a);
      if FirstRaise(rs[0].conditions, a).None? {
        FirstRaiseInNone(rs[1..], a);
        RaisesAtTail(rs, a);
        if forall i, j :: !RaisesAt(rs[1..], a, i, j) {
          forall i, j ensures !RaisesAt(rs, a, i, j) {
            if i > 0 {
              assert !RaisesAt(rs[1..], a, i - 1, j);
            }
          }
        }
      }
    }
  }

  /** Condition `j` of rule `i` raises and no condition before it in scan
      order does. */
  ghost predicate FirstRaiseAt(rs: seq<Rule>, a: Applicant, i: int, j: int)
  {
    && RaisesAt(rs, a, i, j)
    && (forall i', j' | 0 <= i' < i :: !RaisesAt(rs, a, i', j'))
    && (forall j' | 0 <= j' < j :: !RaisesAt(rs, a, i, j'))
  }

  /** The first raising condition of a table without its first rule is the
      first of the table, one rule further on, when the first rule raises
      nowhere. */
  lemma FirstRaiseAtTail(rs: seq<Rule>, a: Applicant, i: int, j: int)
    requires rs != [] && FirstRaiseAt(rs[1..], a, i, j)
    requires forall j' :: !RaisesAt(rs, a, 0, j')
    ensures FirstRaiseAt(rs, a, i + 1, j)
  {
    assert rs[1..][i] == rs[i + 1];
    forall i', j' | 0 <= i' < i + 1 ensures !RaisesAt(rs, a, i', j') {
      if i' > 0 {
        assert rs[1..][i' - 1] == rs[i'];
        assert !RaisesAt(rs[1..], a, i' - 1, j');
      }
    }
    var next := i + 1;
    forall j' | 0 <= j' < j ensures !RaisesAt(rs, a, next, j') {
      assert !RaisesAt(rs[1..], a, i, j');
    }
  }

  /** What `FirstRaiseIn` finds is the error of the first raising condition in
      scan order. */
  lemma {:induction false} FirstRaiseInIsFirst(rs: seq<Rule>, a: Applicant)
    ensures FirstRaiseIn(rs, a).Some? ==> exists i, j ::
      FirstRaiseAt(rs, a, i, j) && FirstRaiseIn(rs, a).value == ErrorOf(rs[i].conditions[j])
  {
    if rs != [] && FirstRaiseIn(rs, a).Some? {
      FirstRaiseIsFirst(rs[0].conditions, a);
      if FirstRaise(rs[0].conditions, a).Some? {
        var k :| 0 <= k < |rs[0].conditions| && Raises(rs[0].conditions[k], a)
          && FirstRaiseIn(rs, a).value == ErrorOf(rs[0].conditions[k])
          && forall m | 0 <= m < k :: !Raises(rs[0].conditions[m], a);
        assert FirstRaiseAt(rs, a, 0, k);
      } else {
        FirstRaiseInIsFirst(rs[1..], a);
        var i, j :| FirstRaiseAt(rs[1..], a, i, j) && FirstRaiseIn(rs, a).value == ErrorOf(rs[1..][i].conditions[j]);
        FirstRaiseAtTail(rs, a, i, j);
        assert rs[1..][i] == rs[i + 1];
      }
    }
  }

  /** The rules of `rs` that match `a`, in table order. */
  function Matched(rs: seq<Rule>, a: Applicant): seq<Rule>
  {
    if rs == [] then []
    else (if RuleMatches(rs[0], a) then [rs[0]] else []) + Matched(rs[1..], a)
  }

  /** The matched rules are exactly the rules of the table that match. */
  lemma {:induction false} MatchedMembers(rs: seq<Rule>, a: Applicant)
    ensures forall r :: r in Matched(rs, a) <==> r in rs && RuleMatches(r, a)
  {
    if rs != [] {
      MatchedMembers(rs[1..], a);
      assert rs == [rs[0]] + rs[1..];
    }
  }

  /** The index of the first element of maximum priority. */
  function FirstMax(ms: seq<Rule>): (k: nat)
    requires |ms| > 0
    ensures k < |ms|
    ensures forall j | 0 <= j < |ms| :: ms[j].priority <= ms[k].priority
    ensures forall j | 0 <= j < k :: ms[j].priority < ms[k].priority
  {
    if |ms| == 1 then 0
    else
      var k := FirstMax(ms[1..]);
      assert forall j | 1 <= j < |ms| :: ms[j] == ms[1..][j - 1];
      if ms[0].priority >= ms[1..][k].priority then 0 else k + 1
  }

  /** Priorities never increase along `s`. */
  ghost predicate Descending(s: seq<Rule>)
  {
    forall i, j | 0 <= i < j < |s| :: s[i].priority >= s[j].priority
  }

  /** Inserts `x` into a sequence before the first element whose priority is
      not greater: an element inserted this way precedes every element of
      equal priority. */
  function InsertByPriority(x: Rule, s: seq<Rule>): (r: seq<Rule>)
    ensures |r| == |s| + 1
    ensures multiset(r) == multiset(s) + multiset{x}
    ensures r[0] == if s == [] || s[0].priority <= x.priority then x else s[0]
  {
    if s == [] || s[0].priority <= x.priority then [x] + s
    else
      assert s == [s[0]] + s[1..];
      [s[0]] + InsertByPriority(x, s[1..])
  }

  /** Inserting into a descending sequence keeps it descending. */
  lemma {:induction false} InsertKeepsDescending(x: Rule, s: seq<Rule>)
    requires Descending(s)
    ensures Descending(InsertByPriority(x, s))
  {
    if s != [] && s[0].priority > x.priority {
      var t := InsertByPriority(x, s[1..]);
      InsertKeepsDescending(x, s[1..]);
      assert s == [s[0]] + s[1..];
      forall j | 0 <= j < |t| ensures s[0].priority >= t[j].priority {
        assert t[j] in multiset(s[1..]) + multiset{x};
        if t[j] != x {
          assert t[j] in s[1..];
        }
      }
    }
  }

  /** Python's `sorted(ms, key=priority, reverse=True)`: a stable sort by
      descending priority, as an insertion sort from the back. */
  function SortedByPriority(ms: seq<Rule>): (r: seq<Rule>)
    ensures |r| == |ms|
    ensures multiset(r) == multiset(ms)
  {
    if ms == [] then []
    else
      assert ms == [ms[0]] + ms[1..];
      InsertByPriority(ms[0], SortedByPriority(ms[1..]))
  }

  /** The stable sort's result is in descending priority order. */
  lemma {:induction false} SortedIsDescending(ms: seq<Rule>)
    ensures Descending(SortedByPriority(ms))
  {
    if ms != [] {
      SortedIsDescending(ms[1..]);
      InsertKeepsDescending(ms[0], SortedByPriority(ms[1..]));
    }
  }

  /** The head of the stable descending sort is the first element of maximum
      priority in the original order. */
  lemma {:induction false} SortedHeadIsFirstMax(ms: seq<Rule>)
    requires |ms| > 0
    ensures |SortedByPriority(ms)| == |ms|
    ensures SortedByPriority(ms)[0] == ms[FirstMax(ms)]
  {
    if |ms| > 1 {
      SortedHeadIsFirstMax(ms[1..]);
    }
  }

  /** What the evaluator returns for applicant `a` over rule table `rs`. */
  function Evaluate(rs: seq<Rule>, a: Applicant): Result<Decision>
  {
    match FirstRaiseIn(rs, a)
    case Some(e) => Err(e)
    case None =>
      var ms := Matched(rs, a);
      if ms == [] then Ok(NoDecision)
      else
        Ok(DecisionFor(SortedByPriority(ms)[0]))
  }

  /** Rule `k` is the one selected: it matches, no matching rule has a higher
      priority, and every matching rule before it has a lower one. */
  ghost predicate IsWinner(rs: seq<Rule>, a: Applicant, k: int)
  {
    && 0 <= k < |rs|
    && RuleMatches(rs[k], a)
    && (forall j | 0 <= j < |rs| && RuleMatches(rs[j], a) :: rs[j].priority <= rs[k].priority)
    && (forall j | 0 <= j < k && RuleMatches(rs[j], a) :: rs[j].priority < rs[k].priority)
  }

  /** At most one index is the winner. */
  lemma WinnerUnique(rs: seq<Rule>, a: Applicant, k1: int, k2: int)
    requires IsWinner(rs, a, k1) && IsWinner(rs, a, k2)
    ensures k1 == k2
  {
  }

  /** A winner of the table without its first rule stays the winner, one
      place further on, when the first rule does not outrank it. */
  lemma WinnerOfTail(rs: seq<Rule>, a: Applicant, k: int)
    requires rs != [] && IsWinner(rs[1..], a, k)
    requires RuleMatches(rs[0], a) ==> rs[0].priority < rs[k + 1].priority
    ensures IsWinner(rs, a, k + 1)
  {
  }

  /** The first rule is the winner when it matches and no later matching rule
      has a higher priority. */
  lemma WinnerAtHead(rs: seq<Rule>, a: Applicant)
    requires rs != [] && RuleMatches(rs[0], a)
    requires forall j | 0 <= j < |rs[1..]| && RuleMatches(rs[1..][j], a) :: rs[1..][j].priority <= rs[0].priority
    ensures IsWinner(rs, a, 0)
  {
    assert forall j | 1 <= j < |rs| :: rs[j] == rs[1..][j - 1];
  }

  /** The first maximum among the matched rules is the winner of the table. */
  lemma {:induction false} MatchedFirstMaxIsWinner(rs: seq<Rule>, a: Applicant)
    requires Matched(rs, a) != []
    ensures exists k :: IsWinner(rs, a, k) && Matched(rs, a)[FirstMax(Matched(rs, a))] == rs[k]
  {
    var tail := rs[1..];
    var mt := Matched(tail, a);
    var m := Matched(rs, a);
    if !RuleMatches(rs[0], a) {
      assert m == mt;
      MatchedFirstMaxIsWinner(tail, a);
      var k' :| IsWinner(tail, a, k') && mt[FirstMax(mt)] == tail[k'];
      WinnerOfTail(rs, a, k');
    } else if mt == [] {
      assert m == [rs[0]];
      MatchedMembers(tail, a);
      forall j | 0 <= j < |tail| ensures !RuleMatches(tail[j], a) {
        assert tail[j] in tail;
      }
      WinnerAtHead(rs, a);
    } else {
      assert m == [rs[0]] + mt;
      assert m[1..] == mt;
      MatchedFirstMaxIsWinner(tail, a);
      var k' :| IsWinner(tail, a, k') && mt[FirstMax(mt)] == tail[k'];
      if rs[0].priority >= tail[k'].priority {
        assert FirstMax(m) == 0;
        WinnerAtHead(rs, a);
      } else {
        assert FirstMax(m) == FirstMax(mt) + 1;
        WinnerOfTail(rs, a, k');
      }
    }
  }

  /** The evaluator fails exactly when some condition raises, and then with
      the error of the first such condition in scan order. */
  lemma EvaluateErrIff(rs: seq<Rule>, a: Applicant)
    ensures Evaluate(rs, a).Err? <==> exists i, j :: RaisesAt(rs, a, i, j)
    ensures Evaluate(rs, a).Err? ==> exists i, j ::
      FirstRaiseAt(rs, a, i, j) && Evaluate(rs, a).error == ErrorOf(rs[i].conditions[j])
  {
    FirstRaiseInNone(rs, a);
    FirstRaiseInIsFirst(rs, a);
  }

  /** The evaluator returns the no-match sentinel exactly when nothing raises
      and no rule matches. */
  lemma NoDecisionIff(rs: seq<Rule>, a: Applicant)
    ensures Evaluate(rs, a) == Ok(NoDecision) <==>
      (forall i, j :: !RaisesAt(rs, a, i, j)) && forall i | 0 <= i < |rs| :: !RuleMatches(rs[i], a)
  {
    FirstRaiseInNone(rs, a);
    MatchedMembers(rs, a);
    if Evaluate(rs, a) == Ok(NoDecision) {
      assert Matched(rs, a) == [] by {
        if Matched(rs, a) != [] {
          SortedHeadIsFirstMax(Matched(rs, a));
        }
      }
      forall i | 0 <= i < |rs| ensures !RuleMatches(rs[i], a) {
        assert rs[i] in rs;
      }
    }
    if (forall i, j :: !RaisesAt(rs, a, i, j)) && forall i | 0 <= i < |rs| :: !RuleMatches(rs[i], a) {
      if Matched(rs, a) != [] {
        var r := Matched(rs, a)[0];
        assert r in rs;
      }
    }
  }

  /** When nothing raises and some rule matches, the decision is built
      verbatim from the winning rule: the highest priority among the matches,
      and the first in table order among those of that priority. */
  lemma DecisionIsWinner(rs: seq<Rule>, a: Applicant)
    requires forall i, j :: !RaisesAt(rs, a, i, j)
    requires exists i | 0 <= i < |rs| :: RuleMatches(rs[i], a)
    ensures exists k :: IsWinner(rs, a, k) && Evaluate(rs, a) == Ok(DecisionFor(rs[k]))
  {
    var i :| 0 <= i < |rs| && RuleMatches(rs[i], a);
    FirstRaiseInNone(rs, a);
    MatchedMembers(rs, a);
    assert rs[i] in rs;
    assert rs[i] in Matched(rs, a);
    MatchedFirstMaxIsWinner(rs, a);
    SortedHeadIsFirstMax(Matched(rs, a));
  }

  /** The winner decides: when nothing raises, the decision is the one built
      from the winning rule. */
  lemma WinnerDecides(rs: seq<Rule>, a: Applicant, k: int)
    requires forall i, j :: !RaisesAt(rs, a, i, j)
    requires IsWinner(rs, a, k)
    ensures Evaluate(rs, a) == Ok(DecisionFor(rs[k]))
  {
    DecisionIsWinner(rs, a);
    var k' :| IsWinner(rs, a, k') && Evaluate(rs, a) == Ok(DecisionFor(rs[k']));
    WinnerUnique(rs, a, k, k');
  }

  /** A rule with no conditions matches every applicant. */
  lemma EmptyConditionsMatch(r: Rule, a: Applicant)
    requires r.conditions == []
    ensures RuleMatches(r, a)
  {
  }

  /** A condition with an unrecognised operator is satisfied and never raises. */
  lemma UnrecognisedOperatorHolds(c: Condition, a: Applicant)
    requires c.symbol !in {">=", "<=", "==", "<", ">"}
    ensures Holds(c, a) && !Raises(c, a)
  {
  }

  /** An absent field fails an equality condition without raising, and makes
      an ordering condition raise. */
  lemma AbsentField(c: Condition, a: Applicant)
    requires c.field !in a
    ensures c.symbol == "==" ==> !Holds(c, a) && !Raises(c, a)
    ensures c.symbol in {">=", "<=", "<", ">"} ==> Raises(c, a)
  {
  }

  /** With every referenced field present, a condition holds exactly when its
      comparison does. */
  lemma PresentField(c: Condition, a: Applicant)
    requires c.field in a
    ensures !Raises(c, a)
    ensures Holds(c, a) <==> Compare(OpOf(c.symbol), a[c.field], c.value)
  {
  }

  /** When every field a rule refers to is present, evaluation never fails. */
  lemma FieldsPresentNeverFails(rs: seq<Rule>, a: Applicant)
    requires forall i, j | 0 <= i < |rs| && 0 <= j < |rs[i].conditions| :: rs[i].conditions[j].field in a
    ensures Evaluate(rs, a).Ok?
  {
    FirstRaiseInNone(rs, a);
    FirstRaiseInIsFirst(rs, a);
  }

  /** The evaluator's inner loop over one rule's conditions: the flag
      `conditionsMet` starts set and each failing comparison clears it; there
      is no early exit, so every condition is looked at unless a comparison
      raises, which ends the evaluation with that error. */
  method CheckConditions(conditions: seq<Condition>, applicant: Applicant)
    returns (conditionsMet: bool, raised: Option<EvalError>)
    ensures raised == FirstRaise(conditions, applicant)
    ensures raised.None? ==> (conditionsMet <==> forall k | 0 <= k < |conditions| :: Holds(conditions[k], applicant))
  {
    conditionsMet := true;
    var j := 0;
    while j < |conditions|
      invariant 0 <= j <= |conditions|
      invariant FirstRaise(conditions[j..], applicant) == FirstRaise(conditions, applicant)
      invariant conditionsMet <==> forall k | 0 <= k < j :: Holds(conditions[k], applicant)
    {
      var condition := conditions[j];
      var value := Lookup(applicant, condition.field);
      assert conditions[j..] == [condition] + conditions[j + 1..];
      match OpOf(condition.symbol) {
        case Ge =>
          if value.None? {
            return conditionsMet, Some(ErrorOf(condition));
          }
          if !(value.value >= condition.value) {
            conditionsMet := false;
          }
        case Le =>
          if value.None? {
            return conditionsMet, Some(ErrorOf(condition));
          }
          if !(value.value <= condition.value) {
            conditionsMet := false;
          }
        case Eq =>
          if !(value.Some? && value.value == condition.value) {
            conditionsMet := false;
          }
        case Lt =>
          if value.None? {
            return conditionsMet, Some(ErrorOf(condition));
          }
          if !(value.value < condition.value) {
            conditionsMet := false;
          }
        case Gt =>
          if value.None? {
            return conditionsMet, Some(ErrorOf(condition));
          }
          if !(value.value > condition.value) {
            conditionsMet := false;
          }
        case Unrecognised(_) =>
      }
      j := j + 1;
    }
    raised := None;
  }

  /** One step of the scan over the rule table: rule `i` either raises, and
      its error is the evaluator's, or the rest of the table is left to scan. */
  lemma ScanStep(rules: seq<Rule>, applicant: Applicant, i: int)
    requires 0 <= i < |rules|
    ensures FirstRaiseIn(rules[i..], applicant) ==
      if FirstRaise(rules[i].conditions, applicant).Some? then FirstRaise(rules[i].conditions, applicant)
      else FirstRaiseIn(rules[i + 1..], applicant)
  {
  }

  /** The matches of a table grown by one rule are those of the table, then
      that rule if it matches. */
  lemma {:induction false} MatchedSnoc(rs: seq<Rule>, r: Rule, a: Applicant)
    ensures Matched(rs + [r], a) == Matched(rs, a) + if RuleMatches(r, a) then [r] else []
  {
    if rs == [] {
      assert [] + [r] == [r];
    } else {
      assert (rs + [r])[1..] == rs[1..] + [r];
      MatchedSnoc(rs[1..], r, a);
    }
  }

  /** The evaluator: every rule is checked in table order and the matching
      ones are appended to a list; with none the sentinel is returned,
      otherwise the decision of the head of the list sorted by descending
      priority. A raising comparison ends the evaluation with its error. */
  method EvaluateRules(rules: seq<Rule>, applicant: Applicant) returns (res: Result<Decision>)
    ensures res == Evaluate(rules, applicant)
  {
    var matched: seq<Rule> := [];
    var i := 0;
    while i < |rules|
      invariant 0 <= i <= |rules|
      invariant FirstRaiseIn(rules[i..], applicant) == FirstRaiseIn(rules, applicant)
      invariant matched == Matched(rules[..i], applicant)
    {
      var rule := rules[i];
      ScanStep(rules, applicant, i);
      assert rules[..i + 1] == rules[..i] + [rule];
      MatchedSnoc(rules[..i], rule, applicant);
      var conditionsMet, raised := CheckConditions(rule.conditions, applicant);
      if raised.Some? {
        return Err(raised.value);
      }
      assert conditionsMet == RuleMatches(rule, applicant);
      if conditionsMet {
        matched := matched + [rule];
      }
      i := i + 1;
    }
    assert rules[i..] == [] && rules[..i] == rules;
    if matched == [] {
      return Ok(NoDecision);
    }
    var best := SortedByPriority(matched)[0];
    res := Ok(DecisionFor(best));
  }
}
