# Trajectory viewer: a verified model of its state and filter logic

The trajectory viewer is a single React component. It loads a JSON log of
agent steps and lets the user narrow the log with four drop-downs: model,
environment, level and run. It groups the matching steps into trajectories
and steps through them by hand or on a timer. This project models that
component's behaviour in Dafny:

- **Loading a file** (`ingestion.dfy`):
  - the text clean-up that turns `: NaN` into `: null` before JSON parsing;
  - the distinct option lists in first-seen order, with empty values dropped and the run ids sorted;
  - the initial selections, where the run selection is the least run id.
- **The filter effect** (`filter_engine.dfy`). It runs whenever the loaded records or a selection change, and:
  - narrows the records by the four selections;
  - recomputes the available option lists;
  - checks each selection against its list, and on the first failure resets that selection to "all" and runs again;
  - otherwise numbers the trajectory groups by first appearance (`orderMap`), stably sorts the matching records by (group number, step) and commits them as the current trajectory.
- **The component state** (`viewer.dfy`). The class `TrajectoryViewer` has one field per state variable. The four selections are one `Selections` value; the four upload option lists and the four available lists are one `OptionLists` value each. Each event handler is a method: the file upload, the four drop-downs, reset, next, previous, play/pause, the timer tick, and typing and submitting a step number. Each method:
  - performs the handler's updates;
  - then does what the component's effects do after the next render: it re-synchronises the step-number box when the step index changed, and re-runs the filter effect when the records or a selection changed, until the effect commits.
- **Supporting definitions**:
  - `Array.prototype.filter` and `[...new Set(xs)]` (`collections.dfy`);
  - the stable comparator sort that ECMA-262 requires of `Array.prototype.sort`, both as a function and as an in-place insertion sort on an array (`stable_sort.dfy`);
  - the JavaScript text helpers the component relies on: `\s`, `parseInt`, `String(n)` and the string order standing for `localeCompare` (`js_text.dfy`).

The main results:
- The clean-up removes every match and is idempotent. It leaves text without a match unchanged.
- The option lists hold each value once, in the order the code gives them.
- Validation fails exactly when no record matches. The effect therefore settles after at most four resets, and with records loaded it always commits a non-empty trajectory.
- `orderMap` numbers the distinct group keys 0, 1, … in order of first appearance.
- The committed trajectory is a permutation of the matching records. Each group is contiguous, the groups come in first-appearance order, steps ascend within a group, and ties keep their file order.
- Every handler keeps the step index inside the trajectory.

Two consequences of the code are worth stating:
- Once the filter effect has run, the viewer never shows an empty trajectory while records are loaded (`Viewer.TrajectoryViewer.LoadedTrajectoryNonEmpty`). Selections that together match no record are reset, the first constrained dimension first (model, environment, level, run), until some record matches, so a "no data for the selected filters" screen cannot be reached after the effect. Only the render between the first upload and its effect shows the records with the still empty trajectory; the model does not stop in that state, since each method runs the effects before it returns.
- Each available list is computed from the records filtered by all four selections, the list's own dimension included. The model follows that computation.

## Model

| member | source | states |
|---|---|---|
| Ingestion.MatchLen | src/TrajectoryVisualization.js:50 | a match of `:\s*NaN` at the start of the text is a colon, then white space, then `NaN`; its length never exceeds the text |
| Ingestion.MatchLenFindsEveryMatch | src/TrajectoryVisualization.js:50 | conversely, a colon, a run of white space and `NaN` at the start of the text are found as one match of exactly that length |
| Ingestion.MatchSpansSpaces | src/TrajectoryVisualization.js:50 | everything between the colon and `NaN` of a match is white space |
| Ingestion.ReplaceNaN | src/TrajectoryVisualization.js:50 | the global replace of `:\s*NaN` by `: null`, scanning left to right; what it does is stated by `ReplacedIsFree`, `FreeUnchanged`, `ReplaceFixedPoints` and `ReplaceIdempotent` below |
| Ingestion.ReplaceKeepsHead | src/TrajectoryVisualization.js:50 | the rewrite keeps the first character of a non-empty text |
| Ingestion.ReplaceKeepsColonFree | src/TrajectoryVisualization.js:50 | a prefix without a colon starts no match and is copied unchanged |
| Ingestion.ReplaceKeepsSpaces | src/TrajectoryVisualization.js:50 | a leading white-space run is copied unchanged |
| Ingestion.NoMatchAtStart | src/TrajectoryVisualization.js:50 | no match starts at the first position of a rewritten text |
| Ingestion.ReplacementHasNoMatch | src/TrajectoryVisualization.js:50 | the replacement `: null` never starts a new match, whatever follows it |
| Ingestion.KeptColonHasNoMatch | src/TrajectoryVisualization.js:50 | a colon that started no match still starts none after the rewrite |
| Ingestion.ReplacedIsFree | src/TrajectoryVisualization.js:50 | after the global replace no match of `:\s*NaN` is left anywhere |
| Ingestion.FreeUnchanged | src/TrajectoryVisualization.js:50 | a text without a match is left unchanged |
| Ingestion.ReplaceFixedPoints | src/TrajectoryVisualization.js:50 | the rewrite leaves a text unchanged if and only if it holds no match |
| Ingestion.ReplaceIdempotent | src/TrajectoryVisualization.js:50 | cleaning an already cleaned text changes nothing |
| Ingestion.ReplaceExample | src/TrajectoryVisualization.js:50 | `":  NaN}"` becomes `": null}"`: the colon, the white space and `NaN` are replaced as one |
| Ingestion.FirstSeenOptions | src/TrajectoryVisualization.js:55-57 | `[...new Set(data.map(r => r[d]))].filter(Boolean)`; its content and order are stated by `FirstSeenOptionsShape` |
| Ingestion.UploadOptions | src/TrajectoryVisualization.js:55-60 | the four upload option lists, the run ids sorted by the string order; stated by `FirstSeenOptionsShape` and `UploadRunIdsShape` |
| Ingestion.FirstSeenOptionsShape | src/TrajectoryVisualization.js:55-57 | the model, environment and level lists hold every non-empty value of their field exactly once, ordered by first appearance in the file |
| Ingestion.UploadRunIdsShape | src/TrajectoryVisualization.js:58-60 | the run-id list holds every non-empty run id exactly once, sorted in string order |
| Ingestion.InitialRunId | src/TrajectoryVisualization.js:75 | the initial run selection is a member of a non-empty run-id list |
| Ingestion.UploadSelections | src/TrajectoryVisualization.js:72-75 | an upload sets the model, environment and level selections to "all" |
| Ingestion.InitialRunIdIsLeast | src/TrajectoryVisualization.js:58-75 | the run selection after an upload is "all" when the file has no run id, and otherwise a run id of the file no greater than any other |
| Ingestion.InitialRunIdIsUniqueLeast | src/TrajectoryVisualization.js:58-75 | the initial run selection is determined by the file: any non-empty run id no greater than all others is the one selected |
| JsText.SpaceRun | src/TrajectoryVisualization.js:50 | the white-space prefix is maximal: all its characters are `\s`, and the character after it is not |
| JsText.DigitValue | src/TrajectoryVisualization.js:191 | a character has a decimal digit value exactly when it is `0`–`9` |
| JsText.DigitRun | src/TrajectoryVisualization.js:191 | `parseInt` reads the longest prefix of digits of the radix |
| JsText.ParseInt | src/TrajectoryVisualization.js:191 | `parseInt` without a radix: leading white space skipped, an optional sign, hexadecimal after `0x`, decimal otherwise, NaN when no digit follows; stated by `ParseIntNeedsDigit`, `ParseIntOfDigits` and `ParseIntDecimalString` |
| JsText.ParseIntNeedsDigit | src/TrajectoryVisualization.js:191-192 | text without a decimal digit parses to NaN |
| JsText.ReadAllDigits | src/TrajectoryVisualization.js:191 | a run of decimal digits is read to its end |
| JsText.ParseIntOfDigits | src/TrajectoryVisualization.js:191 | a numeral of decimal digits, leading zeros included, parses to its value |
| JsText.DecimalString | src/TrajectoryVisualization.js:41 | `String(n)` for a step number; stated by `DecimalStringDigits`, `DecimalDigitsValue` and `ParseIntDecimalString` |
| JsText.DigitChar | src/TrajectoryVisualization.js:41 | the digit character of `d` has digit value `d` |
| JsText.DecimalStringDigits | src/TrajectoryVisualization.js:41 | `String(n)` consists of decimal digits, without a leading zero |
| JsText.DecimalDigitsValue | src/TrajectoryVisualization.js:41 | reading back the digits of `String(n)` gives `n` |
| JsText.ParseIntDecimalString | src/TrajectoryVisualization.js:191 | `parseInt(String(n)) == n`: the step box round-trips the step number it shows |
| JsText.StringLe | src/TrajectoryVisualization.js:58-60 | code-point order on strings, standing for `localeCompare(...) <= 0`; `StringLeIsTotalPreorder` states that it is a total preorder |
| JsText.StringLeIsTotalPreorder | src/TrajectoryVisualization.js:58-60 | the string comparator is total and transitive, so the run-id sort is well defined |
| Collections.Filter | src/TrajectoryVisualization.js:91 | `Array.prototype.filter`; stated by `FilterMembers`, `FilterConcat` and `FilterCount` |
| Collections.FilterMembers | src/TrajectoryVisualization.js:91 | `filter` keeps exactly the elements that pass the test |
| Collections.FilterConcat | src/TrajectoryVisualization.js:91 | `filter` keeps the survivors in input order: it distributes over concatenation |
| Collections.FilterCount | src/TrajectoryVisualization.js:91 | each element that passes is kept as often as it occurs, and the others are dropped |
| Collections.FilterTwice | src/TrajectoryVisualization.js:88-101 | two successive filters are one filter on the conjunction of their tests |
| Collections.FirstIndex | src/TrajectoryVisualization.js:55 | the first occurrence of a value: it holds the value and no earlier position does |
| Collections.Distinct | src/TrajectoryVisualization.js:55 | `[...new Set(xs)]`; stated by `DistinctMembers` and `DistinctFirstSeenOrder` |
| Collections.DistinctMembers | src/TrajectoryVisualization.js:55 | `[...new Set(xs)]` holds each value of `xs` exactly once and nothing else |
| Collections.DistinctFirstSeenOrder | src/TrajectoryVisualization.js:55 | `[...new Set(xs)]` lists a value before another exactly when it occurs first in `xs` |
| Collections.DistinctInFirstSeenOrder | src/TrajectoryVisualization.js:55 | `[...new Set(xs)]` is in first-seen order |
| Collections.FilterInFirstSeenOrder | src/TrajectoryVisualization.js:55 | dropping falsy values keeps the first-seen order |
| Collections.NoDupPermutation | src/TrajectoryVisualization.js:58-60 | sorting a list without repetitions keeps it without repetitions |
| StableSort.SortBy | src/TrajectoryVisualization.js:139-147 | the stable sort `Array.prototype.sort` performs with a comparator; stated by `SortByPermutes`, `SortBySorted` and `SortByStable` |
| StableSort.SortByPermutes | src/TrajectoryVisualization.js:139-147 | the stable sort is a permutation of its input |
| StableSort.SortBySorted | src/TrajectoryVisualization.js:139-147 | with a consistent comparator the stable sort is sorted |
| StableSort.SortByStable | src/TrajectoryVisualization.js:139-147 | elements that compare equal keep their input order |
| StableSort.InsertInPlace | src/TrajectoryVisualization.js:139-147 | one insertion step on the array puts the element where `Insert` places it, and leaves the rest of the array alone |
| StableSort.SortInPlace | src/TrajectoryVisualization.js:139-147 | sorting the array in place yields exactly the stable sort of its old contents |
| Records.Column | src/TrajectoryVisualization.js:55 | `data.map(r => r[d])` has one entry per record |
| Records.GroupKey | src/TrajectoryVisualization.js:135 | the group key `model|||env|||level|||run_id`, a missing field counting as empty; `SameRankSameKey` and `TrajectoryGroupsContiguous` state how it groups the trajectory |
| Records.Selections.With | src/TrajectoryVisualization.js:259 | setting one selection changes that selection and no other |
| Records.Selections.NonAllCount | src/TrajectoryVisualization.js:110-125 | at most four selections are constrained, and none exactly when all are "all" |
| Records.ClearLowersCount | src/TrajectoryVisualization.js:110-125 | each reset lowers the number of constrained selections by one |
| FilterEngine.Filtered | src/TrajectoryVisualization.js:88-101 | the chain of filters, one per selection that is not "all"; stated by `FilteredIsOneFilter`, `FilteredMembers`, `FilteredCount` and `FilteredConcat` |
| FilterEngine.FilteredIsOneFilter | src/TrajectoryVisualization.js:88-101 | the chain of four filters is one filter by "matches every selection" |
| FilterEngine.FilteredMembers | src/TrajectoryVisualization.js:88-101 | a record survives the filters if and only if it is loaded and matches every selection |
| FilterEngine.FilteredCount | src/TrajectoryVisualization.js:88-101 | a matching record survives as often as it occurs in the file, and a non-matching one never does |
| FilterEngine.FilteredConcat | src/TrajectoryVisualization.js:88-101 | the survivors keep their order in the file |
| FilterEngine.NoFilterKeepsAll | src/TrajectoryVisualization.js:88-101 | with every selection "all" nothing is filtered out |
| FilterEngine.Available | src/TrajectoryVisualization.js:103-108 | the four available lists of the filtered records; stated by `AvailableShape` and `AvailableRunIds` |
| FilterEngine.AvailableRunIds | src/TrajectoryVisualization.js:106-108 | the available run ids are the run ids of the filtered records, each once, sorted |
| FilterEngine.AvailableShape | src/TrajectoryVisualization.js:103-108 | each available list holds every value of its field among the filtered records exactly once; the model, environment and level lists are in first-seen order |
| FilterEngine.FirstRecordAvailable | src/TrajectoryVisualization.js:103-108 | every field value of a filtered record appears in its available list |
| FilterEngine.FirstInvalid | src/TrajectoryVisualization.js:110-125 | validation names a constrained selection missing from its list, and every earlier selection passes; it names none when every selection passes |
| FilterEngine.FirstNonAll | src/TrajectoryVisualization.js:110-125 | the first constrained dimension, which is none exactly when every selection is "all" |
| FilterEngine.ValidationFailsOnlyWhenEmpty | src/TrajectoryVisualization.js:110-125 | validation fails if and only if no record matches, and then it resets the first constrained selection |
| FilterEngine.PassOutcomeOf | src/TrajectoryVisualization.js:85-125 | the outcome of one pass: skipped without records, the reset validation names, or a commit; stated by `PassOutcomeMeaning` and `ValidationFailsOnlyWhenEmpty` |
| FilterEngine.PassOutcomeMeaning | src/TrajectoryVisualization.js:85-153 | with records loaded, a pass commits if and only if some record matches; otherwise it resets the first constrained selection |
| FilterEngine.SettleSelections | src/TrajectoryVisualization.js:110-125 | after the re-runs each selection is either unchanged or "all" |
| FilterEngine.SettleReachesMatch | src/TrajectoryVisualization.js:110-125 | with records loaded, the settled selections match some record and the next pass commits |
| FilterEngine.SettleKeepsMatching | src/TrajectoryVisualization.js:110-125 | selections that match some record cause no reset |
| FilterEngine.SettleClearsInOrder | src/TrajectoryVisualization.js:110-125 | resets clear selections front to back: a cleared selection has only "all" before it |
| FilterEngine.UploadCommits | src/TrajectoryVisualization.js:72-75 | the selections an upload installs match some record, so the next filter pass commits |
| FilterEngine.NoFilterSettles | src/TrajectoryVisualization.js:176-183 | after "reset all filters" the filter effect makes no reset |
| FilterEngine.GroupOrder | src/TrajectoryVisualization.js:132-137 | `orderMap`, built from the distinct group keys; stated by `GroupOrderShape`, and `BuildGroupOrder` shows the loop computes it |
| FilterEngine.GroupOrderShape | src/TrajectoryVisualization.js:132-137 | `orderMap` is a bijection from the file's group keys onto 0 … k-1 that numbers keys in order of first appearance |
| FilterEngine.RankMapSnoc | src/TrajectoryVisualization.js:136 | a new key receives the next free number and the numbers of the earlier keys are kept |
| FilterEngine.GroupOrderStep | src/TrajectoryVisualization.js:134-137 | one loop iteration gives a new key the count of keys seen so far and raises that count by one; a known key keeps its number |
| FilterEngine.BuildGroupOrder | src/TrajectoryVisualization.js:132-137 | the loop computes the first-appearance numbering of the group keys |
| FilterEngine.Compare | src/TrajectoryVisualization.js:139-147 | the sort comparator, a missing group number counting as 0; stated by `CompareMeaning` |
| FilterEngine.TrajectoryLe | src/TrajectoryVisualization.js:139-147 | "compares as not greater", the order the comparator induces; `TrajectoryLeIsTotalPreorder` states that it is a total preorder |
| FilterEngine.CompareMeaning | src/TrajectoryVisualization.js:139-147 | the comparator orders records by group number, then by step |
| FilterEngine.TrajectoryLeIsTotalPreorder | src/TrajectoryVisualization.js:139-147 | the comparator is consistent, so the sort result is determined |
| FilterEngine.SortTrajectory | src/TrajectoryVisualization.js:132-147 | building `orderMap` and sorting the filtered records in place yields the committed trajectory |
| FilterEngine.CommittedTrajectory | src/TrajectoryVisualization.js:139-150 | the trajectory a pass commits: the filtered records sorted by the comparator; stated by `TrajectoryPermutes`, `TrajectoryOrdered`, `TrajectoryStable` and the group lemmas below |
| FilterEngine.TrajectoryPermutes | src/TrajectoryVisualization.js:139-150 | the trajectory holds exactly the matching records, each as often as in the file |
| FilterEngine.TrajectoryOrdered | src/TrajectoryVisualization.js:139-147 | the trajectory is ordered by group number, and by step within a group number |
| FilterEngine.TrajectoryStable | src/TrajectoryVisualization.js:139-147 | records with the same group number and step keep their file order |
| FilterEngine.SameRankSameKey | src/TrajectoryVisualization.js:132-143 | two trajectory records have the same group number if and only if they have the same group key |
| FilterEngine.TrajectoryGroupsContiguous | src/TrajectoryVisualization.js:132-147 | each group is one contiguous run of the trajectory |
| FilterEngine.TrajectoryStepsAscend | src/TrajectoryVisualization.js:139-147 | within a group the steps ascend |
| FilterEngine.TrajectoryGroupsFirstSeen | src/TrajectoryVisualization.js:132-147 | the groups follow each other in the order their keys first appear in the file |
| Viewer.StepTarget | src/TrajectoryVisualization.js:191-192 | a submitted box jumps if and only if it parses to a step number between 1 and the trajectory length, and the target is that step's index |
| Viewer.StepTargetOfShownStep | src/TrajectoryVisualization.js:189-196 | submitting the number the box shows for a step of the trajectory jumps to exactly that step |
| Viewer.TrajectoryViewer.constructor | src/TrajectoryVisualization.js:5-24 | the initial state: nothing loaded, step 0, paused, box "1", all selections "all", all lists empty |
| Viewer.TrajectoryViewer.SetStepIndex | src/TrajectoryVisualization.js:40-42 | setting the index copies the step number into the box exactly when the index changes |
| Viewer.TrajectoryViewer.Rewind | src/TrajectoryVisualization.js:181-182 | step index 0 and paused; the box shows "1" afterwards if the index changed, and is untouched otherwise |
| Viewer.TrajectoryViewer.Commit | src/TrajectoryVisualization.js:127-152 | the commit installs the available lists and the trajectory, rewinds to step 0 and pauses, and the box shows "1" if the index changed |
| Viewer.TrajectoryViewer.FilterPass | src/TrajectoryVisualization.js:85-153 | one pass is skipped without records, resets exactly the selection validation names, or commits the settled trajectory; the outcome is the one `PassOutcomeOf` gives |
| Viewer.TrajectoryViewer.RunFilterEffect | src/TrajectoryVisualization.js:85-153 | the effect stops after at most four resets, with the settled selections, and with records loaded it leaves the committed state at step 0, paused |
| Viewer.TrajectoryViewer.Install | src/TrajectoryVisualization.js:53-77 | an upload installs the records, the upload lists as available lists and the initial selections, then rewinds and pauses |
| Viewer.TrajectoryViewer.Upload | src/TrajectoryVisualization.js:53-77 | after an upload and its effect the state is consistent, with the initial selections, step 0, paused and the box re-synchronised; an empty upload keeps the trajectory shown before and leaves the (empty) upload lists as available lists |
| Viewer.TrajectoryViewer.HandleFileUpload | src/TrajectoryVisualization.js:44-83 | no file, or a parse failure, changes nothing; otherwise the cleaned, parsed records are loaded with their option lists and the initial selections, at step 0, paused, with the box re-synchronised, and the state is consistent; an empty array keeps the trajectory shown before and leaves the available lists empty |
| Viewer.TrajectoryViewer.SelectOption | src/TrajectoryVisualization.js:259-289 | choosing the current value changes nothing; another value settles the selections from the new choice, and with records loaded rewinds, pauses and re-synchronises the box; without records nothing but the selection changes |
| Viewer.TrajectoryViewer.ResetAllFilters | src/TrajectoryVisualization.js:176-183 | all selections become "all" at step 0, paused, with the box re-synchronised; with records loaded the trajectory is the whole file's |
| Viewer.TrajectoryViewer.ClearSelections | src/TrajectoryVisualization.js:176-183 | the reset when a selection changes: its filter effect makes no reset, and with records loaded it commits the whole file's trajectory |
| Viewer.TrajectoryViewer.NextStep | src/TrajectoryVisualization.js:157-161 | one step forward, saturating at the last step |
| Viewer.TrajectoryViewer.PrevStep | src/TrajectoryVisualization.js:163-167 | one step back, saturating at the first step |
| Viewer.TrajectoryViewer.TogglePlayPause | src/TrajectoryVisualization.js:169-174 | flips playing, and at the last step rewinds to the first |
| Viewer.TrajectoryViewer.Tick | src/TrajectoryVisualization.js:26-38 | while playing, one step forward or stop at the last step; while paused, nothing |
| Viewer.TrajectoryViewer.ChangeStepInput | src/TrajectoryVisualization.js:185-187 | the box takes the typed text |
| Viewer.TrajectoryViewer.SubmitStepInput | src/TrajectoryVisualization.js:189-199 | only Enter or blur submits; a valid step number jumps there and pauses, and anything else restores the box to the current step |
| Viewer.TrajectoryViewer.ApplyStepInput | src/TrajectoryVisualization.js:191-197 | the jump or the restore of a submission |
| Viewer.TrajectoryViewer.NavigationKeepsValid | src/TrajectoryVisualization.js:157-199 | handlers that touch only the index, the box and the playing flag keep the whole state invariant |
| Viewer.TrajectoryViewer.LoadedTrajectoryNonEmpty | src/TrajectoryVisualization.js:110-152 | with records loaded, the trajectory is non-empty and the index points into it |

## Left out

- The view: the JSX markup, the step display and its placeholders, CSS and the hover handlers are not modelled.
- Reading the file (`file.text()`), `JSON.parse` and `alert` are inputs of `HandleFileUpload`. The file content is an `Option<string>`. The parser is a function parameter, with `None` standing for a thrown error; an error changes nothing.
- Clearing the file input (`event.target.value = ''`) touches the DOM, not component state. It is not modelled.
- A JSON root that is not an array is not modelled. The parser parameter returns a sequence of records.
- JavaScript's dynamic typing is not modelled. Key fields are strings, and a missing field is the empty string. `step` is an integer standing for `Number(step) || 0`, so non-integer steps are not modelled. `String(...)` coercion of non-string values in the filters is not modelled either.
- `localeCompare` is modelled as lexicographic order of code points, not locale collation.
- Timers, asynchronous loading and React's render batching are not modelled:
  - the auto-advance timer is the `Tick` method, called when the timer fires;
  - the cleanup that cancels a stale timer is not modelled;
  - each handler applies its updates and then runs the effects, in the order React would: the step-box effect once, and the filter effect again after every reset, until it commits or is skipped.
- The run-id drop-down is rendered from the upload run-id list, not the available one. That is view code and is not modelled; its change handler is `SelectOption`.
- Viewer.TrajectoryViewer.NextStep: the navigation methods require only `IndexInBounds()` and ensure it again. `NavigationKeepsValid` lifts that to the full invariant `Valid()`, so that is not repeated in each contract.
- Viewer.TrajectoryViewer.HandleFileUpload: the agreement of the upload option lists with the loaded records (`OptionsOfData`) is ensured here, but it is not part of `Valid()`.
