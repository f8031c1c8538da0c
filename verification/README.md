# JSONLogger metric store, modelled in Dafny

`JSONLogger` (verl/utils/jsonlogger.py) keeps experiment metrics in memory as a
dict from metric name to a list indexed by training step. A list entry is
`None` where nothing was logged at that step. `log(data, step)` writes one
batch of metrics at one step. It pads each list with `None` up to the step and
then overwrites that step. Without a step, it uses the length of the
first-inserted metric's list. `show` groups the metric names into plot rows by
the text before their first `/` and plots only the non-`None` points.
`upload_to_wandb` sends one partial record per step.

This project models that store and those pure rules, and proves what they
guarantee. It leaves out the file, plotting and network calls around them.

Modules:

- `Wrappers` (wrappers.dfy): `Option` is the absent marker. `Result` is used
  for operations that raise, and `Error` names what they raise: Python's
  `max()` over an empty sequence.
- `Seqs` (seqs.dfy): `Distinct`, `Keys` (the names of a dict given as its
  items) and `Max`.
- `MetricLog` (metric_log.dfy): the store `Logs(order, series)`. `order` is the
  dict's insertion order and `series` is its contents. `Valid()` says every key
  is listed once. This module also holds the sparse write rule `WriteAt`, one
  loop iteration `LogEntry`, the batch loop `LogData`, the step choice
  `ResolveStep`, and `Log`.
- `LogProperties` (log_properties.dfy): overwrite, idempotence, and the
  implicit step while metrics move in lockstep.
- `History` (history.dfy): any sequence of `log` calls, with or without a
  step, replayed from an empty store; and, for histories whose calls all give
  their step, what each entry then holds.
- `Categories` (categories.dfy): category of a name, the grouping loop of
  `show`, and the subplot grid size.
- `Points` (points.dfy): `valid_steps` and `valid_values` of `show`.
- `Records` (records.dfy): `num_steps`, the per-step partial record and the
  sequence of upload events of `upload_to_wandb`.
- `Scenarios` (scenarios.dfy): concrete runs with integer values.

Metric values have a generic type `V`. A batch is a sequence of
`(name, Option<V>)` pairs with distinct names, as a dict iterates. Its values
are optional because a caller may log `None` explicitly, and the code stores
that as is.

Details of the code the model keeps:

- Without a step, the code uses the list of the FIRST-INSERTED metric, not an
  arbitrary one. Dicts keep insertion order.
- Names without `/` go to the row `no_category`.
- `show` and `upload_to_wandb` both raise on an empty store, because they take
  `max()` over no elements. The model returns `Failure(MaxOfEmpty)` there.
- The upload covers steps `0 .. num_steps - 1`, that is `range(num_steps)`.

## Model

| member | source | states |
|---|---|---|
| MetricLog.Empty | verl/utils/jsonlogger.py:15-16 | a fresh logger's store is valid and holds no metric |
| MetricLog.WriteAt | verl/utils/jsonlogger.py:47-49 | the sparse write rule: the new list has length max(old length, step + 1) and holds the value at `step`; it equals the old list below the old length and holds None on every padded index |
| MetricLog.WriteAtPadsWithAbsent | verl/utils/jsonlogger.py:47-49 | writing at or past the end yields the old list, then one None per skipped step, then the value; padding is never a default value |
| MetricLog.WriteAtOverwrites | verl/utils/jsonlogger.py:47-49 | writing within the list replaces exactly that entry and keeps the length |
| MetricLog.WriteAtTwice | verl/utils/jsonlogger.py:47-49 | writing the same value at the same step again changes nothing |
| MetricLog.LogEntry | verl/utils/jsonlogger.py:45-49 | one loop iteration creates the key at the end of the dict if it is new, applies the write rule to its list, and leaves every other key's list alone |
| MetricLog.LogData | verl/utils/jsonlogger.py:44-49 | after a batch at `step` the store stays valid; its keys are the old keys plus the batch keys; the order is the old order followed by the new batch keys in batch order; each batch key's list is its old list (or the empty list) written at `step` with the batch value; every other list is unchanged |
| MetricLog.FreshMembers | verl/utils/jsonlogger.py:44-46 | the keys appended to the order are exactly the batch keys that were not yet present |
| MetricLog.ResolveStep | verl/utils/jsonlogger.py:40-42 | an explicit step is used as given; without one the step is the length of the first-inserted metric's list, or 0 for an empty store |
| MetricLog.Log | verl/utils/jsonlogger.py:37-49 | `log(data, step)` has the full LogData effect at the resolved step: the store stays valid, the order is the old order followed by the new batch keys, so the first-inserted metric stays first; batch keys are written at that step and every other list is unchanged |
| LogProperties.OverwriteInPlace | verl/utils/jsonlogger.py:47-49 | logging a key at a step below its list's length replaces that one value and keeps the length |
| LogProperties.LogIdempotent | verl/utils/jsonlogger.py:44-49 | logging the same batch at the same explicit step twice gives the same store as logging it once |
| LogProperties.LengthsAfterLog | verl/utils/jsonlogger.py:44-49 | a batch key's list ends with length max(old length, step + 1); every other list keeps its length |
| LogProperties.ImplicitStepInLockstep | verl/utils/jsonlogger.py:40-49 | when every list has length n, the implicit step is n; batch keys reach n + 1 and the others stay at n; a batch naming every metric restores equal lengths at n + 1 |
| LogProperties.LockstepKept | verl/utils/jsonlogger.py:44-49 | under the lengths a write at step n produces, lists of length n become n + 1 for written keys and stay n otherwise |
| LogProperties.ImplicitStepOfEmpty | verl/utils/jsonlogger.py:40-42 | with no metric yet the implicit step is 0 |
| History.Replay | verl/utils/jsonlogger.py:37-49 | any sequence of `log` calls, each with an explicit step or none, keeps the store a valid dict |
| History.LastWrite | verl/utils/jsonlogger.py:47-49 | when no call wrote a metric at a step, the value recorded there is None |
| History.Extent | verl/utils/jsonlogger.py:47-48 | each call writing a metric at step s leaves it at least s + 1 long, and the extent is attained by some call |
| History.ReplayReadsLastWrite | verl/utils/jsonlogger.py:44-49 | after any history whose calls all give their step, a metric's list is as long as its highest written step plus one, and each entry is the value last written there (None if never written) |
| History.OneMoreCall | verl/utils/jsonlogger.py:44-49 | one more call keeps that correspondence: it either writes the metric at its step or leaves the list alone |
| History.NeverWrittenReadsAbsent | verl/utils/jsonlogger.py:47-48 | in a history whose calls all give their step, a step never written for a metric but inside its list reads None, never zero or another default |
| Categories.BeforeSlash | verl/utils/jsonlogger.py:60 | the result is a prefix of the name without '/', followed in the name by '/' unless it is the whole name |
| Categories.BeforeSlashOf | verl/utils/jsonlogger.py:60 | the text before the first '/' does not depend on what follows it |
| Categories.Category | verl/utils/jsonlogger.py:60 | a name with '/' belongs to the proper prefix before its first '/', and a name without '/' belongs to "no_category" |
| Categories.CategoriesOf | verl/utils/jsonlogger.py:58-63 | the reference list of categories in order of first appearance has no duplicates |
| Categories.CategoriesSpec | verl/utils/jsonlogger.py:58-63 | a category is listed exactly when some metric name has it |
| Categories.MembersSpec | verl/utils/jsonlogger.py:58-63 | the reference member list of a category holds exactly the names with that category |
| Categories.NoMembers | verl/utils/jsonlogger.py:58-63 | a category no name has has no members |
| Categories.AddKey | verl/utils/jsonlogger.py:61-63 | the key is appended to its category's group, or a new group is opened at the end; other groups are unchanged |
| Categories.Group | verl/utils/jsonlogger.py:58-63 | the groups are the distinct categories in order of first appearance |
| Categories.GroupAppend | verl/utils/jsonlogger.py:59-63 | grouping one more name places it with AddKey after grouping the earlier names |
| Categories.GroupHoldsMembers | verl/utils/jsonlogger.py:58-63 | each group holds exactly the names of its category, in insertion order |
| Categories.GroupsPartitionKeys | verl/utils/jsonlogger.py:58-63 | every name is in exactly one group, the one of its category; groups hold nothing else, and none is empty |
| Categories.MaxWidth | verl/utils/jsonlogger.py:66 | the width bounds every group and is attained by one |
| Categories.GridShape | verl/utils/jsonlogger.py:65-66 | fails exactly for an empty store; otherwise it gives one row per category and columns equal to the widest group, so every group fits in its row |
| Points.ValidSteps | verl/utils/jsonlogger.py:76-77 | the plotted steps are strictly increasing, below the list length, each holding a value, and every step holding a value is among them |
| Points.ValidValues | verl/utils/jsonlogger.py:78 | the plotted values pair one-to-one with the plotted steps: the list holds `Some(values[i])` at `steps[i]` |
| Points.NoValuesNoPoints | verl/utils/jsonlogger.py:75-79 | a metric with no logged value gives an empty plot rather than an error |
| Records.MaxLength | verl/utils/jsonlogger.py:96 | the maximum bounds every named list and is attained by one |
| Records.NumSteps | verl/utils/jsonlogger.py:96 | fails exactly for an empty store; otherwise it is the maximum list length, attained by some metric |
| Records.RecordOver | verl/utils/jsonlogger.py:98 | the comprehension keeps exactly the names that hold a value at the step, each once, with that value |
| Records.StepRecord | verl/utils/jsonlogger.py:98 | a step's record has metric k exactly when k's list reaches the step and holds a value there, and then with that value |
| Records.EventsUpTo | verl/utils/jsonlogger.py:97-99 | event i is sent for step i with that step's record |
| Records.Upload | verl/utils/jsonlogger.py:96-99 | fails exactly for an empty store; otherwise it sends one event per step below num_steps, in increasing step order |
| Records.LookupFinds | verl/utils/jsonlogger.py:98 | reading a record finds the value it carries for a name, or None when the name is left out |
| Records.UploadLosesNothing | verl/utils/jsonlogger.py:96-99 | every list entry equals what its step's event carries for the metric (None when left out); no event carries a metric past its list |
| Scenarios.SparseExtension | verl/utils/jsonlogger.py:47-49 | on an empty store, "a" = 5 at step 3 gives [None, None, None, 5] |
| Scenarios.OverwriteSameStep | verl/utils/jsonlogger.py:47-49 | "a" = 1 then "a" = 2, both at step 2, give [None, None, 2] |
| Scenarios.LogOneKey | verl/utils/jsonlogger.py:44-49 | a one-key batch is one loop iteration |
| Scenarios.LossAndEvalStore | verl/utils/jsonlogger.py:44-49 | "loss" at step 0 then "eval/acc" at step 1 give loss = [7] and eval/acc = [None, 9], in that order |
| Scenarios.LossAndEvalCategories | verl/utils/jsonlogger.py:60 | "loss" belongs to "no_category" and "eval/acc" to "eval" |
| Scenarios.LossAndEvalGroups | verl/utils/jsonlogger.py:58-63 | the groups are [no_category: loss] then [eval: eval/acc] |
| Scenarios.LossAndEvalRecords | verl/utils/jsonlogger.py:98 | step 0 sends only loss and step 1 only eval/acc |
| Scenarios.FirstImplicitCall | verl/utils/jsonlogger.py:40-49 | a step-less call on a fresh logger writes at step 0 |
| Scenarios.ImplicitHistoryAppends | verl/utils/jsonlogger.py:40-49 | a history of two step-less calls of one metric appends: the values land at steps 0 and 1 |
| Scenarios.ImplicitStepOverwritesLaggingMetric | verl/utils/jsonlogger.py:40-49 | when the first metric lags behind another, an implicit-step write overwrites the other metric's last value instead of appending |
| Scenarios.CategoryEdgeCases | verl/utils/jsonlogger.py:60 | "no_category/x" shares the row of names without '/', and "/x" belongs to the empty-named row |

## Left out

- File I/O and JSON: `read`, `save_config` and the `json.dump`/`json.load` calls (verl/utils/jsonlogger.py:23-35, 39, 51-52). These are filesystem effects and a foreign library. The config record is opaque to the logger and is not modelled, and neither is the JSON round trip of the store.
- Environment-variable defaults and path construction (verl/utils/jsonlogger.py:8-14). These are process-global state.
- matplotlib rendering: `plt.subplots`, titles, labels, `axis('off')` and `savefig` (verl/utils/jsonlogger.py:55, 68-92). Only the grid size, the grouping and the plotted points are modelled. How matplotlib shapes the `axes` array is library behaviour and is not modelled, and it has a visible effect. From reading the code, not from running it: with the default `squeeze=True`, `plt.subplots(n, 1)` returns a 1-D array of axes and `plt.subplots(1, 1)` a single Axes. So `axes[i][j]` at line 79 raises TypeError whenever every category holds exactly one metric, as in the loss / eval/acc scenario. `Categories.GridShape` reports Success there, because it models only lines 65-66.
- wandb session calls `init`, `log` and `finish` (verl/utils/jsonlogger.py:95, 99-100). These are a network client. `Records.Upload` models only the step and record of each `log` call. On an empty store the code opens the session before `max()` raises; the model reports only the failure.
- `print` diagnostics and the `__main__` block (verl/utils/jsonlogger.py:13, 25, 91, 103-111).
- Floating-point metric values: values have a generic type.
- Negative steps: steps are natural numbers. In Python, a negative step would index from the end of a list, or raise IndexError part-way through a batch.
- History.ReplayReadsLastWrite: requires every call of the history to give its step. `History.Replay` accepts step-less calls, but with them the step depends on the state, so there is no step-independent last-write reference. That case is covered by LogProperties.ImplicitStepInLockstep, Scenarios.ImplicitHistoryAppends and Scenarios.ImplicitStepOverwritesLaggingMetric.
- Failures of the file writes inside `log`, because the model has no files. `save_config()` runs at verl/utils/jsonlogger.py:39, before the loop at 44-49, so a failure there raises with the store unchanged. The write at 51-52 opens the file with `'w'` before `json.dump` runs. A failing dump, for example of a value JSON cannot serialise, therefore raises after the store was updated and leaves the file truncated or half-written.
