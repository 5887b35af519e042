# Learning progress tracker — a verified model

`scripts/tracker.py` is a small command-line study tracker. It keeps one
document with a start date, seven fixed study modules and two bucketed lists
(certifications and projects). Each module records a display name, a status,
a progress percentage, the labs completed, the hours spent and study notes.
The command line updates a module's progress, marks a lab done, adds a note
or files a certification. It can also print a status report with next steps,
or a weekly report.

This project models that core in Dafny:

- `progress_state.dfy` (module `ProgressState`) holds the document as
  datatypes and the default document created when no saved one exists. It
  also holds each edit as a function from the old document to the new one,
  with lemmas about repeated edits.
- `reporting.dfy` (module `Reporting`) holds the figures and choices the
  reports are built from. These are the progress total, the completed-module
  count, the average, the module to continue with and the modules listed as
  worked on. It also holds lemmas that tie them to independent definitions.
- `cli.dfy` (module `Cli`) holds the `update` command's progress-to-status
  rule, the choice of command from the argument vector, and what each
  command does to the document. It also shows that the status and progress
  fields agree only while the document is edited through the command line.
- `tracker.dfy` (module `Tracker`) holds the class `LearningTracker`. Its
  fields hold the document and are updated in place. Every edit is proved
  equal to the matching `ProgressState` function, and every report loop is
  proved to compute the matching `Reporting` figure.
- `scenarios.dfy` (module `Scenarios`) holds call sequences on a fresh
  tracker, proved from the class contracts alone.

The iteration order of the `modules` dictionary (insertion order) is the
`order` field. The invariant `WellFormed` fixes it to the seven ids, keeps
every module's lab list free of duplicates, and is kept by every edit.

Three behaviours of `tracker.py` the model keeps:

- A lab list is a list with duplicates refused. A new lab goes at the end.
- `update_module_progress` overwrites the status only when the status given
  is truthy. An empty string leaves the status unchanged, like no status.
- The average divides by the number of modules (`len(modules)`), while the
  completed count is printed out of a literal 7. `ProgressState.ModuleCount`
  shows the two agree.

## Model

| member | source | states |
|---|---|---|
| `ProgressState.ModuleIdsDistinct` | scripts/tracker.py:27-82 | The seven module ids are pairwise distinct, and there are seven names for them. |
| `ProgressState.FreshModules` | scripts/tracker.py:26-83 | Builds one zeroed module per id, with the name at the same position. The keys are exactly the ids and every module is untouched. |
| `ProgressState.DefaultState` | scripts/tracker.py:23-94 | The document created when no saved one exists has exactly the seven ids, in insertion order, with their display names. Every module has status not_started, progress 0, no labs, 0 hours and no notes. All certification and project buckets are empty, the start date is the given time, and the document is well formed. |
| `ProgressState.ModuleCount` | scripts/tracker.py:170-173 | A well-formed document holds exactly seven modules, so dividing by `len(modules)` divides by 7. |
| `ProgressState.IsGiven` | scripts/tracker.py:106 | Python truthiness of the status argument: a missing status and the empty string are not given, and any non-empty string is. |
| `ProgressState.UpdateProgress` | scripts/tracker.py:101-111 | On a known id, sets progress to the argument and adds exactly the hours to time_spent. The status is overwritten only when a non-empty status is given. Name, labs and notes are kept. Every other module, the key set, the start date and both bucket lists are unchanged. An unknown id leaves the document unchanged. Well-formedness is kept. |
| `ProgressState.CompleteLab` | scripts/tracker.py:113-123 | On a known id, appends the lab at the end if it is absent and leaves the list as it was if it is present, so a duplicate-free list stays duplicate-free. Nothing else in the document changes, and an unknown id changes nothing. |
| `ProgressState.AddNote` | scripts/tracker.py:125-136 | On a known id, the notes grow by exactly one entry with the given date and content. The earlier notes stay as a prefix and nothing else changes. An unknown id changes nothing. |
| `ProgressState.AddCertification` | scripts/tracker.py:218-231 | A status of planned, in_progress or completed appends one entry (name and time) to that bucket only. Any other status leaves the document unchanged. Projects, modules and the start date are never modified. |
| `ProgressState.CompleteLabIdempotent` | scripts/tracker.py:116-121 | Calling complete_lab twice with the same arguments equals calling it once. |
| `ProgressState.CompleteLabsKeepsLabsUnique` | scripts/tracker.py:116-121 | After any run of complete_lab calls on one module, its labs are duplicate-free and keep the earlier labs as a prefix. They are exactly the earlier labs together with the new ones. Only that module changes. |
| `ProgressState.AddNotesAppends` | scripts/tracker.py:128-132 | After N add_note calls, the module's notes are the earlier notes followed by exactly those N notes, in call order. Only that module changes. |
| `Reporting.ProgressSum` | scripts/tracker.py:150-161 | The progress total over the modules. When every progress is a percentage, it lies between 0 and 100 times the module count. |
| `Reporting.CompletedModules` | scripts/tracker.py:151-164 | The count of modules whose progress is exactly 100 never exceeds the number of modules. |
| `Reporting.CompletedModulesCountsFinished` | scripts/tracker.py:163-164 | The completed count equals the number of distinct modules whose progress is 100. Status plays no part. |
| `Reporting.NoneFinished` | scripts/tracker.py:163-164 | With no module at progress 100, the completed count is 0. |
| `Reporting.ExactlyOneFinished` | scripts/tracker.py:163-164 | With exactly one module at progress 100, the completed count is 1. |
| `Reporting.FullTotalIffAllCompleted` | scripts/tracker.py:150-164 | With percentages in range, the total is 100 times the module count exactly when every module counts as completed. |
| `Reporting.AllCompletedIffEvery` | scripts/tracker.py:163-164 | Every module counts as completed exactly when every module's progress is 100. |
| `Reporting.AverageProgressBounds` | scripts/tracker.py:170-172 | With percentages in range, the average (total divided by module count) is between 0 and 100. It is 100 exactly when every module counts as completed. |
| `Reporting.AverageProgress` | scripts/tracker.py:170 | The average multiplied by the module count gives back the progress total. |
| `Reporting.FirstWithStatus` | scripts/tracker.py:193-204 | Returns the position of the first module in iteration order with the given status. No earlier module has that status. It returns none only when no module has the status. |
| `Reporting.CurrentModule` | scripts/tracker.py:192-216 | Picks the first module with status in_progress. Failing that, it picks the first with not_started. It returns none exactly when no module has either status. |
| `Reporting.WorkedOn` | scripts/tracker.py:242-246 | The worked-on list has no more entries than there are modules. |
| `Reporting.WorkedOnCountsWorked` | scripts/tracker.py:244-251 | With distinct module ids, the number of names listed (the count the report prints) equals the number of distinct modules with status in_progress or completed, so each such module is listed exactly once. |
| `Reporting.WorkedOnListsExactly` | scripts/tracker.py:244-246 | The worked-on list contains the name of every module with status in_progress or completed, and only such names. |
| `Cli.StatusFromProgress` | scripts/tracker.py:286-292 | Progress 0 gives not_started, 100 gives completed, and any other value gives in_progress (each an if-and-only-if). |
| `Cli.JoinWords` | scripts/tracker.py:303 | The note text starts with the first word, followed by a space when more words follow. No words give the empty text. |
| `Cli.JoinThenSplit` | scripts/tracker.py:303 | Words that hold no space, once joined, cut back at the spaces into exactly the same words. No word of the command line is lost or merged. |
| `Cli.Dispatch` | scripts/tracker.py:261-315 | Fewer than two arguments gives usage. `status` and `report` need nothing more. `update`, `lab` and `note` need an argument vector of at least four entries (the program name included) and `cert` at least three. Anything else is rejected. `update` parses the progress, derives the status from it and takes 0 hours when none are given. `note` joins the remaining words with spaces. `cert` defaults to planned. |
| `Cli.Apply` | scripts/tracker.py:275-315 | A command keeps the document well formed and never changes the start date, the order or the projects. The usage, status, report and rejected commands leave the document unchanged. |
| `Cli.DefaultIsCliConsistent` | scripts/tracker.py:24-94 | In the default document, every status is the one the CLI derives from its progress. |
| `Cli.DispatchKeepsCliConsistent` | scripts/tracker.py:281-294 | Every command the arguments can select keeps each status equal to the one derived from its progress. |
| `Cli.AllDoneIffAllCompleted` | scripts/tracker.py:150-216 | On a document edited only through the CLI, next steps selects no module exactly when the completed count equals the number of modules. |
| `Cli.StatusCanDisagreeWithProgress` | scripts/tracker.py:101-107 | Filing status completed at progress 50 directly on a fresh document gives a module marked completed while the completed count stays 0. |
| `Tracker.ModulePath` | scripts/tracker.py:209 | The path is `modules/`, the module id and `/`, so the id can be read back from it. |
| `Tracker.ReadmePath` | scripts/tracker.py:212 | The README path is the module's path followed by `README.md`. |
| `Tracker.LearningTracker.constructor` | scripts/tracker.py:14-94 | A tracker created without a saved file holds exactly the default document and is well formed. |
| `Tracker.LearningTracker.UpdateModuleProgress` | scripts/tracker.py:101-111 | The new fields equal `UpdateProgress` of the old document. The message is "updated" with the module name and the new progress, or "module not found". The document is saved once on success and not otherwise. |
| `Tracker.LearningTracker.CompleteLab` | scripts/tracker.py:113-123 | The new fields equal `ProgressState.CompleteLab` of the old document. The message is "not found", "already completed" or "completed". The document is saved only when the lab was appended. |
| `Tracker.LearningTracker.AddNote` | scripts/tracker.py:125-136 | The new fields equal `ProgressState.AddNote` of the old document with a note stamped `now`. The document is saved only for a known module. |
| `Tracker.LearningTracker.AddCertification` | scripts/tracker.py:218-231 | The new fields equal `ProgressState.AddCertification` of the old document. The message is "invalid status" exactly for a status outside the three buckets, and the document is saved otherwise. |
| `Tracker.LearningTracker.ShowProgress` | scripts/tracker.py:150-185 | The accumulating loop returns the progress total and the count of modules at 100 (at most 7). It also returns the average over all modules and the sizes of the three certification and three project buckets. |
| `Tracker.LearningTracker.FindFirstWithStatus` | scripts/tracker.py:193-204 | The break loop returns the first module in iteration order with the given status. It returns none exactly when no module has that status. |
| `Tracker.LearningTracker.ShowNextSteps` | scripts/tracker.py:187-216 | Says all modules are completed exactly when `CurrentModule` selects none. Otherwise it names the selected module with its path `modules/<id>/`. It suggests `modules/<id>/README.md` exactly when the probe says that file exists. |
| `Tracker.LearningTracker.GenerateWeeklyReport` | scripts/tracker.py:233-255 | The loop returns the names of the modules with status in_progress or completed, in iteration order. The reported weekly time is always 0. |
| `Tracker.LearningTracker.Execute` | scripts/tracker.py:275-315 | Running a command leaves the document equal to `Apply` of the old one. Usage lists the module ids in order. Status gives the progress total, the average, the completed count, the six bucket sizes and the same next-step advice as `ShowNextSteps`. Update, lab, note and cert print the message the matching edit gives for the old document. Report gives the weekly figures, and a rejected command gives the invalid-command output. The document is saved exactly when the printed message is a success. |
| `Scenarios.UpdateFreshModule` | scripts/tracker.py:281-294 | `update 01-operating-systems 50 3` on a fresh tracker gives status in_progress, progress 50 and 3 hours. |
| `Scenarios.ZeroThenFull` | scripts/tracker.py:150-164 | `update` to 0 and then to 100 moves the status from not_started to completed, and the status report then counts one completed module. |
| `Scenarios.SameLabTwice` | scripts/tracker.py:113-123 | Completing `lab1` twice leaves `["lab1"]`, and the second call reports "already completed". |
| `Scenarios.FileCertifications` | scripts/tracker.py:218-231 | `cert AWS-SAA in_progress` files one entry in in_progress. `cert X bogus` is refused with "invalid status" and changes no bucket. |

## Left out

- Reading and writing the JSON file (`load_data` when the file exists, and `save_data`) is file I/O and is not modelled. A tracker starts from the default document, and the ghost counter `saveCount` records only when a save would happen. So a document loaded with other module ids, or a malformed one, is outside the model.
- The clock (`datetime.now()`) is not modelled: time stamps are opaque strings passed in by the caller. For that reason `days_since_start`, the unused `week_start`, and the non-decreasing order of note dates are not modelled.
- Printed text is not modelled: messages, emoji, status icons, the per-module lines of the status report and the `:.1f` rounding. Edits return a `Message` value and reports return their figures.
- The README existence check of the next-steps report is a filesystem call. It is the function parameter `readmeExists`.
- Converting command-line text to numbers (`int()`, `float()`) and the exceptions that raises are not modelled. They are the parameters `parseInt` and `parseFloat`. The usage text is reduced to the list of module ids.
- Hours are exact reals, not floating-point numbers, and progress is an unbounded integer, unchecked as in the source.
- Python treats an empty module id as false in `show_next_steps`. The model never meets that case because the seven ids are fixed and non-empty.
- Cli.JoinThenSplit: states the round trip only for words without spaces; a command-line argument that itself holds a space comes back cut into several words.
- The class `LearningTracker` is not linked to the data file name given to `__init__`, which matters only for I/O.
