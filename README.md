# Plan selection for the Holon intent orchestrator

The orchestrator runs an intent through three stages: create, plan, execute.
Between planning and execution it reads the plans ledger. This is a JSON-lines
file with one plan record per line. From it the orchestrator picks the plan to
execute for the intent. This project models that selection rule and proves what
it guarantees:

- keep only the records whose `intent_id` equals the requested intent (a record
  without an `intent_id` never matches);
- fail with "no plans found for intent" when no record is left;
- otherwise return the `plan_id` of a record that maximises the Expected Value
  `p_success - entropy`. The choice follows Python's `max`: it scans in ledger
  order and replaces the current best only when a later score is strictly
  greater, so the earliest maximal record wins a tie.

Files:

- `wrappers.dfy` (module `Wrappers`): `Option` for a key that may be missing, and
  `Result` for the error path.
- `plan_selection.dfy` (module `PlanSelection`): the plan record, the filter
  (`Candidates`), the arg-max (`BestIndex`), the selector (`SelectBestPlan`), and
  the lemmas about them.

The specification is `IsFirstBest(plans, intent, i)`, an independent definition
stated on positions of the input. It says that record `i` belongs to the intent,
that no record of the intent scores higher, and that every earlier record of the
intent scores strictly lower. `SelectBestPlan`'s contract and
`SelectBestPlanOfFirstBest` together show that the selector returns exactly the
`plan_id` of that record. `FirstBestUnique` shows there is at most one such
record, so the result is fully determined by the ledger contents and the intent
id.

The wider orchestrator's documentation gives the Expected Value as
`p_success * impact - λ * entropy - cost`. The selector's own docstring
(orchestrate_intent.py:36) calls `p_success - entropy` the Expected Value, and the
code ranks by exactly that (orchestrate_intent.py:44); this model follows the code.

## Model

| member | source | states |
|---|---|---|
| `PlanSelection.Candidates` | orchestrate_intent.py:38 | the filtered list never has more records than the ledger, and every record it keeps belongs to the requested intent |
| `PlanSelection.CandidatesMembers` | orchestrate_intent.py:38 | a record is a candidate exactly when it is in the ledger and its `intent_id` is present and equal to the requested one |
| `PlanSelection.CandidatesAppend` | orchestrate_intent.py:38 | filtering works segment by segment and keeps ledger order: filtering `a + b` gives the candidates of `a` followed by those of `b` |
| `PlanSelection.CandidatesIdempotent` | orchestrate_intent.py:38 | filtering the candidates again changes nothing |
| `PlanSelection.BestIndex` | orchestrate_intent.py:44 | the scan picks a valid position whose score is at least every score in the list and strictly above every earlier score (first maximum wins) |
| `PlanSelection.AppendForeignKeepsFirstBest` | orchestrate_intent.py:38 | a record of another intent read after the current best leaves the best record unchanged |
| `PlanSelection.AppendOnlyBecomesFirstBest` | orchestrate_intent.py:44 | the first record of the intent that is read becomes the best |
| `PlanSelection.AppendBetterBecomesFirstBest` | orchestrate_intent.py:44 | a later record of the intent with a strictly greater score replaces the best |
| `PlanSelection.AppendTieKeepsFirstBest` | orchestrate_intent.py:44 | a later record of the intent with an equal or lower score does not replace the best |
| `PlanSelection.BestCandidatePosition` | orchestrate_intent.py:38-45 | the record that the arg-max picks among the candidates sits at the first-best position of the whole ledger |
| `PlanSelection.BestCandidateIsFirstBest` | orchestrate_intent.py:38-45 | the `plan_id` the arg-max picks is that of a first-best record of the ledger |
| `PlanSelection.SelectBestPlan` | orchestrate_intent.py:35-45 | it fails exactly when no record has the requested intent, and the error names that intent; on success it returns the `plan_id` of a record of that intent with maximal score that has no earlier record of equal score |
| `PlanSelection.FirstBestUnique` | orchestrate_intent.py:44 | at most one position of the ledger is the first-best record of an intent |
| `PlanSelection.SelectBestPlanOfFirstBest` | orchestrate_intent.py:35-45 | if record `i` is the first-best record of the intent, the selector returns exactly its `plan_id` (converse of the selector's contract; the result is determined) |
| `PlanSelection.SingleCandidateSelected` | orchestrate_intent.py:38-45 | with exactly one record of the intent in the ledger, its `plan_id` is returned whatever its score |
| `PlanSelection.EmptyLedgerFails` | orchestrate_intent.py:40-41 | an empty ledger, which is what a missing plans file reads as, gives the no-plans error |
| `PlanSelection.InsertForeignRecord` | orchestrate_intent.py:38 | inserting a record of another intent, or one without an intent id, anywhere in the ledger does not change the result |
| `PlanSelection.DropForeignRecords` | orchestrate_intent.py:38 | selecting from the candidates alone gives the same result as selecting from the whole ledger, so records of other intents may be removed or reordered freely |

## Left out

- `run_entrypoint` (orchestrate_intent.py:15-24) is not modelled. It runs shell scripts, prints their output and exits the process on failure, which is process I/O.
- `read_jsonl_file` (orchestrate_intent.py:27-32) is not modelled. Its input is the file system and JSON parsing, so the selector takes the parsed records as a sequence. A missing file reads as an empty list, and `EmptyLedgerFails` covers that case.
- `main` (orchestrate_intent.py:48-94) is not modelled. It handles arguments, creates directories, reads the intent file and runs the entrypoint scripts in order; it has no selection logic of its own.
- Scores are exact reals. IEEE floating-point rounding and NaN in `p_success - entropy` are not modelled.
- A matching record without `p_success` or `entropy` raises `KeyError` at orchestrate_intent.py:44. The selected record without `plan_id` raises `KeyError` at orchestrate_intent.py:45; a matching record that is not selected may lack `plan_id`. The model makes all three fields mandatory.
- A ledger line whose JSON is not an object (`[]`, `3`, `"x"`) makes the `p.get` call at orchestrate_intent.py:38 raise `AttributeError`, whatever intent the other lines belong to. A matching record whose `p_success` or `entropy` is not a number (a string, `null`) raises `TypeError` at orchestrate_intent.py:44. The model takes every line to be an object with numeric scores. `InsertForeignRecord` and `DropForeignRecords` therefore hold only for such ledgers: in Python, inserting a line that is not an object turns any result into `AttributeError`.
- Intent and plan ids are strings. JSON values of other types, and a requested intent id of `null` (which would match records that lack the key), are not modelled.
- The ledger store, convergence evaluator, branch/merge controller and trust/budget manager described for the wider system have no implementation in `orchestrate_intent.py`, so they are not part of this model.
