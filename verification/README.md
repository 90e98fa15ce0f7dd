# Workout store model

A Dafny model of the data layer of a mobile fitness tracker: the
`DatabaseManager` class, which keeps one JSON document holding the
workout sessions, their exercises and their sets, the derived
application statistics, and the user settings.

The document is the datatype `Model.Document`. Sessions, exercises and
sets are nested maps keyed by their ids, as in the stored JSON. Each store
operation is a function from the document to a `Reply(doc, value)` with
the document after the call and the call's answer. Every mutating call
ends the way the source does: it recomputes the statistics from the whole
document. `Stats.Consistent(d)` says the recorded statistics are those of
the sessions, and every successful mutation establishes it.

Properties proved:

- **Not found leaves the store untouched.** A call whose session,
  exercise or set id is missing answers `false` or `None` and returns the
  same document.
- **Volume is weight times reps.** A set's volume is its weight times its
  reps when it is added. `update_set` recomputes it. Every operation
  preserves that all stored volumes are exact (`Model.AllExact`).
- **Statistics are a fold over the whole tree.** `Stats.StatsOf`
  counts exercises and sessions, sums the set volumes and truncates the
  sum toward zero. The loop version of `update_stats`
  (`Stats.UpdateStats`) computes exactly that, in whatever order it visits
  the maps. The folds do not depend on visiting order
  (`Folds.SumRealRemove`).
- **A partial update keeps the fields it was not given**
  (`Store.ApplyUpdate`).
- **Frames.** Each operation changes one level of one branch of the tree
  and nothing else (`Model.OnlyExercisesOf`, `Model.OnlySetsOf`,
  `Model.AgreeExcept`). The user settings are never touched.

Set ids are kept exactly as written. The key of a new set is
`"set_" + (number of sets + 1)`. While the keys are `set_1 … set_n`
without gaps, the new key is always free, so nothing is lost.

From gap-free keys, deleting a set other than the last one leaves a gap.
The next `add_set` then produces the key of a set that is still there and silently replaces
it: the count does not grow, and the old set's data is gone.
`StoreLemmas.AddAfterInteriorDeleteOverwrites` proves this in general.
`Scenarios.AddAfterDeleteOverwrites` shows it on a concrete history.

The model does not change this behaviour. It is a compatibility question
for the application, and this model only records it.

Files:

- `wrappers.dfy`: `Option`.
- `decimal.dfy`: decimal rendering of set numbers and its inverse.
- `folds.dfy`: order-independent sums over maps.
- `model.dfy`: the records, the document, set keys and frame predicates.
- `stats.dfy`: `update_stats` as a fold and as a loop.
- `store.dfy`: the store operations.
- `store_lemmas.dfy`: statistics, exact volumes and set numbering across
  the operations.
- `scenarios.dfy`: worked histories.

## Model

| member | source | states |
|---|---|---|
| Store.Commit | main.py:83-84 | The tail of every mutator (also main.py:90-91, 109-110, 117-118, 138-139, 155-156, 165-166): the new sessions are stored, the recorded statistics become those of exactly these sessions, and the user settings are kept |
| Model.SetId | main.py:128-129 | A set key is "set_" followed by a non-empty run of decimal digits; with `Model.SetIdInjective` and `Decimal.ParseNatToString` the number can be read back from the key |
| Decimal.NatToString | main.py:129 | The decimal rendering of a set number is a non-empty string of digits with no leading zero, starting with "0" only for zero |
| Store.CreateTables | main.py:30-42 | An entirely empty document becomes zero statistics, no sessions and the default settings ("BellaajMohsen7", "kg", "dark"), and its statistics agree with its sessions; any non-empty document is left exactly as it is |
| Store.GetAppStats | main.py:61-67 | Whatever statistics are recorded are returned as they are, even when they no longer match the sessions; when they are current they are the fold over all sessions; with no statistics recorded the answer is the all-zero record |
| Store.GetWorkoutSessions | main.py:69-70 | The stored session map, or the empty map when the document has none; its size is the recorded session count whenever the statistics are current |
| Store.GetWorkoutSession | main.py:95-96 | A session is returned exactly when the id is stored, and it is the stored session |
| Store.CreateWorkoutSession | main.py:72-85 | Exactly one session is added, under the fresh id, active and with no exercises, carrying the given name, type, date and time; every other session is unchanged, the settings are kept and the statistics are recomputed |
| Store.DeleteWorkoutSession | main.py:87-93 | An unknown id answers false and leaves the document unchanged; a known id answers true, removes that session and only it, keeps the settings and recomputes the statistics |
| Store.AddExercise | main.py:98-111 | An unknown session answers None and leaves the document unchanged; otherwise exactly one exercise with no sets is added to that session under the fresh id, and nothing else in the tree changes |
| Store.DeleteExercise | main.py:113-120 | A missing session or exercise answers false and leaves the document unchanged; otherwise that exercise alone is removed from its session and the statistics are recomputed |
| Store.AddSet | main.py:122-140 | A missing session or exercise answers None and leaves the document unchanged; otherwise the answer is the key "set_" followed by the count plus one, the record stored there has that number, the given weight, reps and time and volume weight times reps, every other set is kept, and the count grows by one exactly when that key was free |
| Store.ApplyUpdate | main.py:149-154 | A field given as None keeps its old value, a given field replaces it, the volume is recomputed from the resulting weight and reps, and the set number and creation time are kept |
| Store.UpdateSet | main.py:142-158 | A missing session, exercise or set answers false and leaves the document unchanged; otherwise only that set changes, to the partial update of its old record, with the same set keys |
| Store.DeleteSet | main.py:160-168 | A missing session, exercise or set answers false and leaves the document unchanged; otherwise that set alone is removed and the others keep their keys and records |
| Stats.UpdateStats | main.py:170-186 | The loop over sessions, exercises and sets yields the fold `StatsOf` whatever order the maps are visited in; the session count is the number of sessions and the weekly figure is that count capped at 7 |
| Stats.SumExerciseVolumes | main.py:177-179 | The nested loop over one session's exercises and their sets adds up exactly the session's set volumes |
| Stats.SumSetVolumes | main.py:178-179 | The loop over one exercise's sets adds up exactly their volumes |
| Stats.Trunc | main.py:184 | Converting the volume total to an integer rounds toward zero: the result is the integer part, below or equal for a non-negative total and above or equal for a negative one |
| Stats.Min | main.py:185 | The weekly figure is the smaller of the session count and 7 |
| Stats.StatsOfEmpty | main.py:33-38 | The fold over no sessions is the all-zero statistics record the store starts with |
| Stats.TotalVolumePut | main.py:175-179 | Replacing one session changes the summed volume by the difference of that session's exercise volumes |
| Stats.TotalExercisesPut | main.py:175-176 | Replacing one session changes the exercise count by the difference of that session's exercise counts |
| Stats.TotalVolumeRemove | main.py:175-179 | Removing a session takes exactly its exercise volumes out of the summed volume |
| Folds.SumRealRemove | main.py:175-179 | A sum over a map is independent of the order the entries are visited in: any entry can be taken out first |
| Folds.SumIntRemove | main.py:175-176 | The same order independence for integer counts |
| Decimal.ParseNatToString | main.py:129 | Reading back the decimal digits of a set number gives the number |
| Model.SetIdInjective | main.py:128-129 | Different set numbers give different set keys |
| StoreLemmas.CreateSessionStats | main.py:72-85 | A new session adds one to the session count and nothing to the exercise count or the volume |
| StoreLemmas.DeleteSessionStats | main.py:87-93 | Deleting a session removes one session, its exercises from the count and its exercise volumes from the volume |
| StoreLemmas.AddExerciseStats | main.py:98-111 | A new exercise adds one to the exercise count and nothing to the volume |
| StoreLemmas.DeleteExerciseStats | main.py:113-120 | Deleting an exercise removes one from the exercise count and its set volumes from the volume |
| StoreLemmas.AddSetStats | main.py:122-140 | A new set adds its weight times reps to the volume and, when its key was taken, removes the volume of the set it replaces |
| StoreLemmas.UpdateSetStats | main.py:142-158 | Updating a set swaps its old volume for the volume of the updated record |
| StoreLemmas.DeleteSetStats | main.py:160-168 | Deleting a set removes exactly its volume from the total |
| StoreLemmas.CreateSessionKeepsExact | main.py:72-85 | Creating a session keeps every stored volume equal to weight times reps |
| StoreLemmas.DeleteSessionKeepsExact | main.py:87-93 | Deleting a session keeps every stored volume equal to weight times reps |
| StoreLemmas.AddExerciseKeepsExact | main.py:98-111 | Adding an exercise keeps every stored volume equal to weight times reps |
| StoreLemmas.DeleteExerciseKeepsExact | main.py:113-120 | Deleting an exercise keeps every stored volume equal to weight times reps |
| StoreLemmas.AddSetKeepsExact | main.py:131-137 | The new set's volume is its weight times its reps, so all stored volumes stay exact |
| StoreLemmas.UpdateSetKeepsExact | main.py:149-154 | Because the volume is recomputed after a partial update, all stored volumes stay exact |
| StoreLemmas.DeleteSetKeepsExact | main.py:160-168 | Deleting a set keeps every stored volume equal to weight times reps |
| StoreLemmas.DensePutNext | main.py:127-137 | While set keys are "set_1" to "set_n" without gaps, the next key is unused, storing under it adds one set, and the keys stay gap-free |
| StoreLemmas.DenseRemoveLast | main.py:160-164 | Removing the highest-numbered key keeps gap-free keys gap-free |
| StoreLemmas.AddSetToDenseKeepsAll | main.py:122-140 | On gap-free keys `add_set` keeps every existing set, grows the count by one and keeps the keys gap-free |
| StoreLemmas.DeleteLastSetKeepsDense | main.py:160-168 | Deleting the highest-numbered set keeps gap-free keys gap-free |
| StoreLemmas.AddSetOverKey | main.py:127-137 | When the key "set_<count+1>" is already in use, `add_set` stores the new set over it and the count does not grow |
| StoreLemmas.AddAfterInteriorDeleteOverwrites | main.py:127-137 | After deleting a set numbered below the count while the highest key survives, the next `add_set` reuses the surviving highest key, replaces that set and leaves the count one lower than before the delete |
| Scenarios.StartOneExercise | main.py:72-111 | From an empty store, one session and one exercise give a document with exactly that session, exactly that exercise and no sets |
| Scenarios.AddTwoSets | main.py:122-140 | Two sets added to an exercise with none are keyed "set_1" and "set_2", numbered 1 and 2, and the volume total is the truncated sum of their weight times reps |
| Scenarios.TwoEqualSets | main.py:122-140 | Two sets of 100 kg for 5 reps give volumes of 500 each and statistics of one exercise, one session, volume 1000 and one weekly workout |
| Scenarios.DeleteFirstOfTwo | main.py:160-168 | Deleting "set_1" of two sets leaves the other under its own key "set_2"; keys are not renumbered |
| Scenarios.AddAfterDeleteOverwrites | main.py:127-137 | With only "set_2" left, the next set is numbered 2 and keyed "set_2", replaces the survivor, and the volume total becomes that of the new set alone |
| Scenarios.OneExerciseStats | main.py:170-186 | A store with one session holding one exercise has statistics of one exercise, one session, one weekly workout and the truncated volume of that exercise's sets |

## Left out

- Loading and saving the JSON file (main.py:44-59) are left out. Saving after each call does not change the in-memory document. Load errors fall back to an empty document, which is `EmptyDocument`. Malformed JSON, unknown top-level keys and values of the wrong JSON type are outside the datatypes.
- The random session and exercise ids (`uuid4`) and the clock readings (`datetime.now`) are parameters. A fresh id must not already be in use. The source assumes this, since a collision of eight hex digits would overwrite an entry.
- The `KeyError` that Python raises when the document has no `workout_sessions` key becomes the `Ready(d)` precondition of the mutators and of `get_workout_session`.
- `get_workout_session` returns an empty dictionary for an unknown id. The model answers `None` instead.
- The `float(weight)` and `int(reps)` coercions are out of scope. Weights are exact reals and reps are integers, so IEEE rounding in volumes and sums is not modelled. A string argument that fails to convert is not modelled either.
- Infinities and NaN are not modelled. A weight of "inf" or one large enough makes `float(weight) * int(reps)` (main.py:131) infinite. The `int(total_volume)` in `update_stats` (main.py:184) then raises `OverflowError`, or `ValueError` for NaN. By then the set is already stored in memory (main.py:137), so the document keeps the new set with stale statistics. The model's `Store.AddSet` and `Store.UpdateSet` always finish with current statistics.
- The contents of `user_settings` are only checked to be preserved. No operation of the store reads them.
- `create_tables` treats any non-empty dictionary as initialised. The model can only express a document with some of its three known fields, so "non-empty" means at least one of those is present.
- The Kivy user interface (main.py:188 onward) is not part of this model.
- Store.CreateWorkoutSession: requires the session map to be present and the new id to be fresh, rather than modelling a crash or an overwrite.
