# Scholarship rule evaluator, modelled in Dafny

This project models the scholarship rule evaluator of `LR3.py`. It has two parts:

- **The rule table.** Five statically defined rules. Each has a name, an integer priority, a list of `(field, operator, value)` conditions and an action: a decision code and a reason.
- **`evaluate_rules(applicant)`.** It scans the rules in table order. Inside each rule it checks every condition, and any failing comparison clears a `conditions_met` flag. There is no early exit. Each rule whose flag is still set is appended to a list of matches. With no matches the function returns the `NO_DECISION` record. Otherwise it sorts the matches by descending priority and returns the name, decision and reason of the head of that list.

Files:

- `rule_model.dfy` (module `RuleModel`): conditions, rules, actions, the decision record, the no-match sentinel, and the operators. The evaluator's chain of string comparisons on `operator` is the function `OpOf`, which maps a symbol to a closed `Op` datatype. A symbol other than the five becomes `Unrecognised` and keeps its text.
- `evaluator.dfy` (module `Evaluator`):
  - specification functions: `Holds`, `RuleMatches`, `FirstRaise`/`FirstRaiseIn`, `Matched`, `SortedByPriority` and `Evaluate`;
  - the evaluator's loops as methods proved equal to them: `CheckConditions` is the inner loop over one rule's conditions, `EvaluateRules` is the outer loop together with the final selection;
  - lemmas that characterise the result.
- `rule_table.dfy` (module `RuleTable`): the table as a literal sequence, in source order. Lemmas state what follows from it for every applicant.
- `scenarios.dfy` (module `Scenarios`): six reference applicants, each with the decision the table gives them.

Modelling choices:

- `applicant.get(field)` is modelled as it behaves (`Lookup`).
  - A field that is present gives its value.
  - An absent field gives `None`. Comparing `None` with a number by `>=`, `<=`, `<` or `>` raises a TypeError in Python. The model returns `Err(UnorderableComparison(field, symbol))` for the first such condition in scan order (`Raises`, `FirstRaiseIn`).
  - `None == value` is false, so an absent field fails an equality condition without raising.
  - An unrecognised operator is never evaluated, so it neither fails nor raises.
  - `FieldsPresentNeverFails` and `RuleTable.CompleteNeverFails` show that an applicant with every referenced field never gets an error. For the table the converse holds too: `RuleTable.IncompleteFails` shows that an applicant missing any of the four attributes gets an error.
  - So an absent field raises only under an ordering operator; under `==` the condition fails silently. There is no dedicated missing-field error.
- Applicant and rule values are exact `real`s. Priorities are unbounded `int`s, as Python's are.
- The module-level `rules` list is the parameter `rules`/`rs` of the evaluator. `RuleTable.Table` is its value in the program.
- `sorted(matched_rules, key=priority, reverse=True)[0]` is modelled by `SortedByPriority`. It is an insertion sort that puts an element before every element whose priority is not greater, so that equal priorities keep table order, as Python's `reverse=True` sort does. What is proved about it: its result is descending and a permutation of its input (`SortedIsDescending`, `SortedByPriority`), and its head, the only element the evaluator uses, is the first element of maximum priority (`SortedHeadIsFirstMax`, `FirstMax`). The relative order of the other equal-priority elements is not proved.
- The applicant with CGPA 3.9, score 90, income 1000 and two disciplinary actions matches two rules: "Need-based review" (priority 70: CGPA at least 2.5, income at most 4000) and "Serious disciplinary record" (priority 90). The latter wins. `Scenarios.DisciplinaryScenario` proves this.

## Model

| member | source | states |
|---|---|---|
| `RuleModel.Compare` | LR3.py:82-96 | defines the outcome of a condition on a present value: exact `>=`, `<=`, `==`, `<`, `>` of applicant value against rule value, and satisfied for an unrecognised operator; its properties are `CompareIsNumericOrder` and `PresentField` |
| `RuleModel.DecisionFor` | LR3.py:111-115 | defines the returned record of a selected rule: its name, decision and reason, verbatim; `WinnerDecides` ties it to the winner |
| `RuleModel.NoDecision` | LR3.py:102-106 | the no-match sentinel: no rule name, decision `NO_DECISION`, reason "No matching rule found for this applicant."; `NoDecisionIff` says when it is returned |
| `RuleModel.OpOf` | LR3.py:82-96 | the operator chosen for a symbol reads back as that same symbol; it is `Unrecognised` exactly when the symbol is none of `>=`, `<=`, `==`, `<`, `>` |
| `RuleModel.OpOfSymbolOf` | LR3.py:82-96 | each of the five operators is selected by its own symbol |
| `RuleModel.CompareIsNumericOrder` | LR3.py:82-96 | the five comparisons are exact numeric order: at equality `>=`, `<=`, `==` succeed and `<`, `>` fail; `>=` is `>` or `==`, `<=` is `<` or `==`, `<` is not `>=`, `>` is not `<=` |
| `Evaluator.Lookup` | LR3.py:80 | the value is present exactly when the field is in the applicant, and is then the applicant's value |
| `Evaluator.Raises` | LR3.py:80-96 | defines when a condition raises: its field is absent and its operator is one of the four ordering ones; `AbsentField` and `PresentField` state both cases |
| `Evaluator.Holds` | LR3.py:80-96 | defines when a condition that does not raise keeps `conditions_met` set: the comparison succeeds on a present field; on an absent one only an unrecognised operator holds and `==` fails; see `AbsentField`, `PresentField`, `UnrecognisedOperatorHolds` |
| `Evaluator.FirstRaise` | LR3.py:78-96 | defines the TypeError that aborts the loop over one rule's conditions: the error of its first raising condition, if any; `FirstRaiseIsFirst` characterises it |
| `Evaluator.FirstRaiseIn` | LR3.py:75-96 | defines that TypeError across the scan of the table, rule by rule; `FirstRaiseInNone` and `FirstRaiseInIsFirst` characterise it |
| `Evaluator.FirstRaiseIsFirst` | LR3.py:78-96 | within one rule, no error exactly when no condition raises; otherwise the error is that of a raising condition with no raising condition before it |
| `Evaluator.FirstRaiseInNone` | LR3.py:75-96 | over the table, no error exactly when no condition of any rule raises |
| `Evaluator.FirstRaiseInIsFirst` | LR3.py:75-96 | an error found over the table is that of the first raising condition in scan order: no earlier rule has one, and no earlier condition of the same rule has one |
| `Evaluator.RuleMatches` | LR3.py:76-98 | defines `conditions_met` still being set after a rule's conditions: every condition holds; `MatchedMembers` and `EmptyConditionsMatch` characterise it |
| `Evaluator.Matched` | LR3.py:75-99 | defines the collected matches: the rules whose conditions all hold, in table order; `MatchedMembers` and `MatchedSnoc` state its content and its growth |
| `Evaluator.MatchedMembers` | LR3.py:75-99 | a rule is among the collected matches exactly when it is in the table and every one of its conditions holds |
| `Evaluator.MatchedSnoc` | LR3.py:98-99 | scanning one more rule appends it to the matches when it matches and leaves them unchanged otherwise |
| `Evaluator.FirstMax` | LR3.py:109 | the index chosen has a priority no smaller than any element's, and every element before it has a strictly smaller one |
| `Evaluator.InsertByPriority` | LR3.py:109 | inserting adds exactly the inserted element; the new head is that element unless the old head has a strictly higher priority |
| `Evaluator.InsertKeepsDescending` | LR3.py:109 | inserting into a descending sequence keeps it descending |
| `Evaluator.SortedByPriority` | LR3.py:109 | the sorted matches are a permutation of the matches, of the same length |
| `Evaluator.SortedIsDescending` | LR3.py:109 | the sorted matches are in non-increasing priority order |
| `Evaluator.SortedHeadIsFirstMax` | LR3.py:109 | the head of the stable descending sort is the first maximum-priority match in table order |
| `Evaluator.Evaluate` | LR3.py:72-115 | defines the evaluator's result: the first raise in scan order, else the sentinel when nothing matches, else the decision of the head of the sorted matches; `EvaluateErrIff`, `NoDecisionIff`, `DecisionIsWinner` and `WinnerDecides` characterise it |
| `Evaluator.IsWinner` | LR3.py:108-109 | the reference definition of the selected rule by table index: it matches, no match has a higher priority, and every earlier match has a lower one |
| `Evaluator.WinnerUnique` | LR3.py:108-109 | at most one index is the winner (`IsWinner`: a match of highest priority with no earlier match of that priority) |
| `Evaluator.MatchedFirstMaxIsWinner` | LR3.py:75-109 | the first maximum among the collected matches is a table rule that matches, outranks or ties every match, and strictly outranks every earlier match |
| `Evaluator.EvaluateErrIff` | LR3.py:78-96 | the evaluator fails exactly when some condition raises, and then with the error of the first raising condition in scan order |
| `Evaluator.NoDecisionIff` | LR3.py:98-106 | the result is the `NO_DECISION` sentinel, with its fixed reason and no rule name, exactly when nothing raises and no rule matches |
| `Evaluator.DecisionIsWinner` | LR3.py:98-115 | when nothing raises and some rule matches, the result is the name, decision and reason of a winning rule: highest priority among the matches, first in table order among ties |
| `Evaluator.WinnerDecides` | LR3.py:108-115 | when nothing raises, the winning rule's name and action are the result, verbatim |
| `Evaluator.EmptyConditionsMatch` | LR3.py:76-99 | a rule with no conditions matches every applicant |
| `Evaluator.UnrecognisedOperatorHolds` | LR3.py:82-96 | a condition whose operator is none of the five is satisfied and never raises |
| `Evaluator.AbsentField` | LR3.py:80-96 | with the field absent, an `==` condition fails without raising and an ordering condition raises |
| `Evaluator.PresentField` | LR3.py:80-96 | with the field present, a condition never raises and holds exactly when its comparison succeeds |
| `Evaluator.FieldsPresentNeverFails` | LR3.py:75-96 | when every referenced field is present, evaluation never fails |
| `Evaluator.CheckConditions` | LR3.py:76-96 | the inner loop's error is that of the first raising condition; without one, the flag ends set exactly when every condition holds |
| `Evaluator.EvaluateRules` | LR3.py:72-115 | the loop's result is the evaluation function's: an error, the sentinel, or the decision of the head of the sorted matches |
| `RuleTable.Table` | LR3.py:3-68 | the five rules of the program, in source order, with their names, priorities, conditions and actions as written |
| `RuleTable.Priorities` | LR3.py:3-68 | the table has five rules with priorities 100, 80, 70, 95, 90 in that order |
| `RuleTable.FieldsOfTable` | LR3.py:3-68 | an applicant with cgpa, co-curricular score, family income and disciplinary actions makes no condition of the table raise |
| `RuleTable.CompleteNeverFails` | LR3.py:3-68 | such an applicant never makes the evaluator fail |
| `RuleTable.IncompleteFails` | LR3.py:3-68 | evaluating the table succeeds exactly when all four attributes are present; a missing one fails at the first ordering condition that meets it: `cgpa >=`, `co_curricular_score >=` or `family_income <=` of "Top merit candidate", or `disciplinary_actions <=` of "Good candidate - partial scholarship" |
| `RuleTable.TopMeritAwardsFull` | LR3.py:5-18 | any applicant satisfying "Top merit candidate" gets `AWARD_FULL` under that rule's name and reason |
| `RuleTable.LowCgpaRejects` | LR3.py:45-55 | any applicant with all four attributes and a CGPA below 2.5 is rejected by "Low CGPA – not eligible", whatever their values |
| `Scenarios.TopMeritScenario` | LR3.py:72-115 | CGPA 3.8, score 85, income 7000, no disciplinary actions: `AWARD_FULL` by "Top merit candidate" |
| `Scenarios.PartialScenario` | LR3.py:72-115 | CGPA 3.4, score 65, income 10000, one action: `AWARD_PARTIAL` by "Good candidate - partial scholarship" |
| `Scenarios.ReviewScenario` | LR3.py:72-115 | CGPA 2.6, score 10, income 3000, no actions: `REVIEW` by "Need-based review" |
| `Scenarios.LowCgpaScenario` | LR3.py:72-115 | CGPA 2.0, score 50, income 5000, no actions: `REJECT` by "Low CGPA – not eligible" |
| `Scenarios.DisciplinaryScenario` | LR3.py:72-115 | CGPA 3.9, score 90, income 1000, two actions: `REJECT` by "Serious disciplinary record", over the also-matching need-based rule |
| `Scenarios.NoMatchScenario` | LR3.py:72-115 | CGPA 3.0, score 40, income 20000, no actions: the `NO_DECISION` sentinel |

## Left out

- Parsing the embedded JSON text with `json.loads` (LR3.py:70) is a library call. The table is written directly as a literal sequence of rules. The load-time failure on malformed text is not modelled.
- IEEE floating-point behaviour is not modelled. Values such as 3.7 and 3.3 are exact reals, so `==` is exact real equality and float rounding is not captured.
- Non-numeric values are not modelled: an applicant key present with the value `None`, or values of other Python types. Every present value is a number.
- The text of Python's TypeError message is not modelled. The error carries the field and the operator symbol of the raising condition.
- The inner loop over a rule's conditions is its own method, `CheckConditions`, called from the outer loop in `EvaluateRules`. In the source both loops sit in one function body. The model keeps the same order of checks, the same flag and the same exits.
- The internals of Python's `sorted` (Timsort) are not modelled. `SortedByPriority` has the same observable result: a stable sort by descending priority.
- The input form, the display of results and any other presentation layer are not part of this model.
