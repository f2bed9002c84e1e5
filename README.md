# Store-location wizard: pairwise comparisons and score form

A Dafny model of the client-side logic of the "Store Location Decision System" wizard
(`src/pages/Home.jsx`). The wizard keeps a list of criteria, a list of candidate
locations, the list of pairwise criterion comparisons sent to the AHP (Analytic
Hierarchy Process) service, and the score map of the "add location" form. The AHP
weights, rankings and consistency figures are computed by the remote service behind
HTTP calls and are not part of this model.

Modules:

- `Entities` (`entities.dfy`): the records (`Criterion`, `Location`, `Comparison`), ids
  as strings, comparison values and scores as exact reals.
- `Comparisons` (`comparisons.dfy`): the upper-triangle comparison list. `Pairs(ids)` is
  its specification, with lemmas for length, position of each pair, lexicographic order,
  membership, default value and "each unordered pair once". `GenerateComparisons` is the
  nested loop of the criteria effect, proved equal to `Pairs`. `ChangeComparison` is the
  slider handler, done on an array copy.
- `Deletion` (`deletion.dfy`): the `filter` by `_id` of the two delete handlers.
- `Scores` (`scores.dfy`): the form's score map (initial load, new criterion, reset after a
  location is saved, one slider change) and the "scored criteria" count.
- `Wizard` (`wizard.dfy`): class `Home`, whose fields are the React state variables and
  whose methods are the handlers. Its invariant `Valid()` says that the comparison list is
  shaped after the current criteria and that the form has a score for every criterion.
  The handlers that change the criteria end with `CriteriaChanged`, the criteria effect
  with the correction described under "## Findings": it rebuilds the list for any number
  of criteria. With that correction every handler preserves `Valid()`. The effect as
  written in the source does not rebuild the list for fewer than two criteria, so in the
  source `Valid()` fails after a delete leaves one criterion (`StaleComparisonAfterDelete`).

Server answers, `window.confirm` and failures are parameters of the handlers. `None` or
`false` stands for a rejected form (blank name), a declined confirmation or a failed
request. In each of these cases the handler leaves the state alone.

## Model

| member | source | states |
|---|---|---|
| `Comparisons.GenerateComparisons` | src/pages/Home.jsx:286-295 | the nested loops produce exactly `Pairs(ids)`, the row-major upper triangle over the criteria ids |
| `Comparisons.PairsLength` | src/pages/Home.jsx:286-294 | n criteria give exactly n(n-1)/2 comparisons |
| `Comparisons.PairsOfShortList` | src/pages/Home.jsx:284 | with 0 or 1 criteria there is no pair to generate |
| `Comparisons.PairsAt` | src/pages/Home.jsx:286-293 | for every i < j, the entry at `Position(n, i, j)` is `{criterion_a: ids[i], criterion_b: ids[j], value: 1}` |
| `Comparisons.PairsDecode` | src/pages/Home.jsx:286-293 | every entry is the comparison of some `ids[i]` with a later `ids[j]`, sitting at `Position(n, i, j)` |
| `Comparisons.PositionOrder` | src/pages/Home.jsx:286-287 | one pair's entry comes before another's exactly when its (i, j) is lexicographically smaller |
| `Comparisons.PairsMembership` | src/pages/Home.jsx:286-293 | a comparison is in the list if and only if it pairs `ids[i]` with `ids[j]`, i < j, at value 1 |
| `Comparisons.PairsEntries` | src/pages/Home.jsx:291 | every generated comparison has value 1 and names two of the given ids |
| `Comparisons.PairsEachUnorderedPairOnce` | src/pages/Home.jsx:286-294 | with distinct ids, the entry at index k covers the unordered pair {ids[i], ids[j]} if and only if k is that pair's position |
| `Comparisons.PairsNoSelfComparison` | src/pages/Home.jsx:287 | with distinct ids, no criterion is compared with itself |
| `Comparisons.RefreshComparisonsAsWritten` | src/pages/Home.jsx:283-297 | the effect as written rebuilds the list for more than one criterion and otherwise returns the previous list unchanged |
| `Comparisons.ChangeComparison` | src/pages/Home.jsx:401-405 | same length; the entry at `index` keeps its pair and takes the new value; every other entry is unchanged |
| `Deletion.WithoutId` | src/pages/Home.jsx:348 | an element survives if and only if its id differs; survivors keep their multiplicity and elements with the id are all gone |
| `Deletion.WithoutIdKeepsOrder` | src/pages/Home.jsx:361 | the survivors form a subsequence of the input, in their original relative order |
| `Deletion.WithoutAbsentId` | src/pages/Home.jsx:348 | deleting an id nobody carries returns the list unchanged |
| `Deletion.WithoutIdIdempotent` | src/pages/Home.jsx:361 | deleting the same id twice equals deleting it once |
| `Deletion.DeleteCriterion` | src/pages/Home.jsx:348 | the remaining criteria are exactly those with another id, each as often as before, in their original order |
| `Deletion.DeleteLocation` | src/pages/Home.jsx:361 | the remaining locations are exactly those with another id, each as often as before, in their original order |
| `Scores.InitialScores` | src/pages/Home.jsx:266-269 | the form gets a key for exactly the loaded criteria ids, each at 5 |
| `Scores.WithNewCriterion` | src/pages/Home.jsx:329-332 | the new id is added with score 5; every other key keeps its score |
| `Scores.WithNewCriterionFollowsCriteria` | src/pages/Home.jsx:326-332 | if the form's keys were the criteria ids, they stay the criteria ids after adding a criterion |
| `Scores.ResetScores` | src/pages/Home.jsx:385-387 | the reset map has the same key set and every value is 5 |
| `Scores.WithScore` | src/pages/Home.jsx:448-453 | only the given key is set or inserted; every other key keeps its score |
| `Scores.ResetForgetsEdit` | src/pages/Home.jsx:382-388 | a slider edit of an existing key is discarded by the reset that follows a saved location |
| `Scores.ScoredCount` | src/pages/Home.jsx:601 | the count of positive scores is at most the number of scores |
| `Scores.ScoredCountAllPositive` | src/pages/Home.jsx:601 | the count equals the number of scores if and only if every score is positive |
| `Scores.ScoredCountAfterReset` | src/pages/Home.jsx:386 | after a reset every score counts |
| `Scores.ScoredCountAfterScore` | src/pages/Home.jsx:449-452 | setting an existing key changes the count by its old and new sign, and by nothing else |
| `Wizard.ShapedComparisonsNameCriteria` | src/pages/Home.jsx:663-665 | a list shaped after the current criteria names only current criteria, so both lookups of the slider label succeed |
| `Wizard.DeletedCriteriaKeepScores` | src/pages/Home.jsx:348 | deleting criteria leaves the form's keys alone, so every remaining criterion still has a score |
| `Wizard.Home.constructor` | src/pages/Home.jsx:73-75 | empty criteria, locations and comparisons (lines 73-75), and an empty score form, the `scores: {}` of the initial `newLocation` (lines 235-239) |
| `Wizard.Home.CriteriaChanged` | src/pages/Home.jsx:283-297 | the corrected criteria effect: the list becomes `Pairs` of the current ids, all at value 1, for any number of criteria, and is empty for fewer than two |
| `Wizard.Home.Load` | src/pages/Home.jsx:253-280 | criteria and locations as loaded, a score of 5 for exactly each criterion, comparisons rebuilt by the corrected effect; unchanged on failure |
| `Wizard.Home.AddCriterion` | src/pages/Home.jsx:317-342 | the created criterion is appended, its key enters the form at 5, comparisons are rebuilt by the corrected effect, the invariant is kept |
| `Wizard.Home.DeleteCriterion` | src/pages/Home.jsx:343-355 | criteria are filtered by id; comparisons are rebuilt by the corrected effect, which also empties them when one criterion is left, where the source keeps the stale list (see Findings); the form keeps its keys; the invariant is kept for the corrected wizard |
| `Wizard.Home.AddLocation` | src/pages/Home.jsx:370-398 | the created location is appended and the form's scores reset to 5, keys kept |
| `Wizard.Home.DeleteLocation` | src/pages/Home.jsx:356-368 | locations are filtered by id; nothing else changes |
| `Wizard.Home.ChangeComparison` | src/pages/Home.jsx:401-405 | only the value at `index` changes, so the list stays shaped after the criteria |
| `Wizard.Home.ScoreChange` | src/pages/Home.jsx:448-453 | only the given key of the form changes; the invariant is kept |
| `Wizard.StaleComparisonAfterDelete` | src/pages/Home.jsx:284 | with the effect as written, deleting `b` from criteria `a`, `b` leaves one criterion and a comparison that still names `b` |

## Findings

| source | as written | input that shows it | evidently intended | confidence | as-written member | corrected member |
|---|---|---|---|---|---|---|
| src/pages/Home.jsx:284 | the comparison list is rebuilt only when `criteria.length > 1`, so a list built for earlier criteria survives when the criteria drop to one | criteria `a`, `b` give `[(a, b, 1)]`; delete `b` and the list is still `[(a, b, 1)]`. The Continue button is disabled only for zero criteria (line 556), so this list is shown and submitted with `criteria_ids` `[a]` | the list always matches the current criteria, so it is empty for fewer than two | medium, not executed | `Comparisons.RefreshComparisonsAsWritten`, `Wizard.StaleComparisonAfterDelete` | `Wizard.Home.CriteriaChanged` |

## Left out

- The AHP computation (weights, rankings, consistency ratio, aggregated scores) runs on the server behind `POST /pairwise`, `POST /evaluate` and `POST /ahp/calculate`. Apart from the state it feeds, it is not part of this model.
- The HTTP client in `src/utils/api.js` and its error-message selection are I/O and are not modelled. A failed request is the `None`/`false` argument of a handler.
- The blank-name guards of the add handlers (`name.trim()`) are folded into the `None` argument. Whitespace trimming of strings is not modelled.
- `window.confirm`, the loading flags, the snackbar, dialogs, stepper navigation, `console.log` and the random user id are UI and side effects.
- Excel/Word export, file preview, charts and `toFixed` formatting are library wrappers and float-to-string formatting.
- Slider ranges (1/9..9 for comparisons, 1..10 for scores) are not enforced. Values are exact reals, not IEEE doubles.
- `Comparisons.ChangeComparison`: JavaScript copies the array shallowly and assigns `value` on the shared record, so the previous list also sees the new value. Records here are values, so only the returned list changes. Nothing reads the previous list afterwards.
- `Wizard.Home.AddLocation`: the source resets from the `newLocation` captured when the handler was created, not from the latest state. An edit made while the save request is pending is not modelled.
- `Wizard.Home`: the handlers run the corrected criteria effect `CriteriaChanged`; `Valid()` holds for the corrected wizard, not for the source after a delete down to one criterion (see Findings). The source's own effect is modelled separately by `RefreshComparisonsAsWritten`.
- React runs the criteria effect after the render that changed `criteria`. Here the corrected effect `CriteriaChanged` runs at the end of the handler that changed them (`Load`, `AddCriterion`, `DeleteCriterion`). The source's own effect rebuilds only for two or more criteria.
- Uniqueness of ids is not enforced by the source. The "each pair once" and "no self comparison" lemmas assume distinct ids; the other properties hold without that assumption.
