# Taskmate core in Dafny

A model of the decision logic of Taskmate, a personal task manager with
three parts: an Express backend, a Python scorer and a React frontend.

The model covers seven pieces:

- **Prioritizer** — the backend's task scorer: the heuristic fallback, the
  walk over candidate Python interpreters, and the entry point that always
  ends in a classification.
- **Stats** — the dashboard statistics: counts, the completion rate, and the
  rounded averages.
- **TaskController** — the decisions of the create and update handlers:
  validation order, the reclassification gate, the `completedAt` rule, and
  the merge order of request body, classification and stored task.
- **WikiLinks** — extraction of `[[link]]` titles, equivalent to the global
  lazy expression `/\[\[(.*?)\]\]/g`.
- **ModelUtils** — the Python helpers: `priority_label`, `hours_until_due`
  and the feature row of `prepare_input`.
- **TaskForm** — the form's tag normaliser, the formatter for the
  `datetime-local` input, and the submitted payload.
- **App** — the order of the task list and the requests sent from the list.

Shared modules:

- `Wrappers` — `Option` and `Result`.
- `Text` — trimming for the JavaScript and Python whitespace sets,
  ASCII lower-casing, split and join.
- `Decimal` — `String(n)`, `padStart`, and a parser used to state
  round trips.
- `TaskDoc` — a JavaScript object whose keys may be missing, `undefined`,
  `null` or set, and the object spread `{...a, ...b}`.
- `Sorting` — a generic stable insertion sort, standing for
  `Array.prototype.sort`.

Everything outside the program is a parameter:

- the clock (`now`, in milliseconds);
- the outcome of launching each interpreter;
- `JSON.parse` of the scorer's output;
- whether the scorer script exists;
- the browser's local calendar fields of a time;
- `new Date(text)` of the form's date text;
- the Python `sanitize_datetime` result;
- the scorer used by the controller (`classify`).

Numbers are exact: `real` for JavaScript and Python floats, `int` for
milliseconds.

## Model

| member | source | states |
|---|---|---|
| Prioritizer.Urgency | backend/src/services/prioritizer.js:12-25 | 0.4 without a due date. Otherwise, by hours until due: 1 if overdue, 0.8 up to 24 h, 0.6 up to 72 h (both bounds inclusive), else 0.3. Each band is an if-and-only-if on the due time. An invalid date gives 0.3. |
| Prioritizer.UrgencyMonotone | backend/src/services/prioritizer.js:17-22 | A later due date is never more urgent. |
| Prioritizer.Minutes | backend/src/services/prioritizer.js:13 | A missing or zero estimate becomes 30. Any other estimate is kept. The result is never 0. |
| Prioritizer.Importance | backend/src/services/prioritizer.js:27-35 | The values are 0.9 with a high tag (client, livraison or deadline, after lower-casing). Without one, they are 0.3 with a low tag (maintenance or low) and 0.5 otherwise. A task of 240 minutes or more gains 0.2, capped at 1, so the values become 1, 0.5 and 0.7. The thresholds follow as if-and-only-if conditions: at least 0.9, at least 0.7, and exactly 0.3. |
| Prioritizer.ImportanceMonotone | backend/src/services/prioritizer.js:35 | More minutes never lower importance. |
| Prioritizer.FallbackLabel | backend/src/services/prioritizer.js:37-40 | Each of the four labels as an if-and-only-if condition on urgency and importance. `low` is never produced. |
| Prioritizer.FallbackLabelMonotone | backend/src/services/prioritizer.js:37-40 | Raising urgency or importance never moves the label down the display order. |
| Prioritizer.Fallback | backend/src/services/prioritizer.js:11-43 | Urgency is `Urgency` of the due date. Importance is `Importance` of the tags and the defaulted minutes. The label is `FallbackLabel` of the two. Consequently both scores lie in [0, 1], `critical` holds iff u ≥ 0.8 and i ≥ 0.7, and the label is never `low`. |
| Prioritizer.Dedupe | backend/src/services/prioritizer.js:96-100 | `Array.from(new Set(xs))` has no duplicates and is no longer than its input. |
| Prioritizer.DedupeMembers | backend/src/services/prioritizer.js:96-100 | The deduplicated list holds exactly the input's elements. |
| Prioritizer.DedupeDistinct | backend/src/services/prioritizer.js:96-100 | A list without repeats is returned unchanged. |
| Prioritizer.DedupeOrder | backend/src/services/prioritizer.js:96-100 | The result lists the elements in the order of their first occurrence in the input. |
| Prioritizer.Candidates | backend/src/services/prioritizer.js:96-100 | An unset or empty PYTHON_PATH, or one equal to python, gives [python, python3]. `python3` gives [python3, python]. Any other path p gives [p, python, python3]. |
| Prioritizer.Run | backend/src/services/prioritizer.js:45-88 | No candidates: failure. A non-ENOENT launch error on the first candidate: failure. A non-zero exit of the first candidate: failure carrying that code. |
| Prioritizer.RunSucceedsIff | backend/src/services/prioritizer.js:47-84 | The walk yields `out` iff some candidate exits 0 with `out` and every candidate before it failed with ENOENT. |
| Prioritizer.RunAllMissing | backend/src/services/prioritizer.js:68-73 | When every candidate is missing, the walk fails. |
| Prioritizer.RunCandidates | backend/src/services/prioritizer.js:45-88 | The loop that stops at the first candidate not ending in ENOENT computes the same result as the recursive walk. |
| Prioritizer.PayloadOf | backend/src/services/prioritizer.js:102-108 | Every property the task sets is passed through unchanged. A missing one takes its default: "" title, "" description, null due date, 30 minutes, [] tags. |
| Prioritizer.Prioritize | backend/src/services/prioritizer.js:90-128 | The result is the fallback's when the script is missing, the run fails, stdout is empty, or stdout does not parse. Otherwise it is the parsed fields, passed through unvalidated. |
| Prioritizer.PrioritizeProvenance | backend/src/services/prioritizer.js:110-127 | A result other than the fallback's comes from parseable, non-empty output of a candidate reached through ENOENT failures only. |
| Prioritizer.NoInterpreterFallsBack | backend/src/services/prioritizer.js:91-127 | With no interpreter installed, the result is the fallback's. |
| Stats.UnitsNearest | backend/src/utils/stats.js:4 | The scaled rounding is within half a unit of the scaled value; ties go away from zero. |
| Stats.RoundWithin | backend/src/utils/stats.js:4 | Rounding to d decimals never leaves an interval with integral bounds. |
| Stats.RoundExamples | backend/src/utils/stats.js:4 | 40 rounds to 40.0. 0.125 rounds to 0.13 and -0.125 to -0.13. 0.124 rounds to 0.12. |
| Stats.Average | backend/src/utils/stats.js:1-5 | 0 for no values (no division). Otherwise it is the sum divided by the count, rounded to two decimals, so it has at most two decimals. |
| Stats.AverageNearest | backend/src/utils/stats.js:1-5 | The rounded mean is within 0.005 of the exact mean. |
| Stats.AverageWithin | backend/src/utils/stats.js:1-5 | The mean of values in an integral interval stays in it. |
| Stats.AverageNonNegative | backend/src/utils/stats.js:1-5 | The mean of non-negative values is non-negative. |
| Stats.CountComplement | backend/src/utils/stats.js:8-10 | Tasks counted as completed plus tasks counted as active equal the total. |
| Stats.CountMonotone | backend/src/utils/stats.js:13-15 | A weaker filter counts at least as many tasks. |
| Stats.UrgencyScores | backend/src/utils/stats.js:21 | One score per task; a missing urgency counts as 0. |
| Stats.ImportanceScores | backend/src/utils/stats.js:22 | One score per task; a missing importance counts as 0. |
| Stats.CompletionHours | backend/src/utils/stats.js:24-31 | A completed task with a completion time and a creation time (`null` reads as the epoch) has the hours between them, or nothing when that is negative. A missing creation time gives nothing (an invalid date is filtered out). No other task has a duration. |
| Stats.CompletionDurations | backend/src/utils/stats.js:24-31 | There are no more durations than completed tasks, and all are non-negative. |
| Stats.CompletionDurationsAppend | backend/src/utils/stats.js:24-31 | The durations of a concatenation are those of each part, in order. |
| Stats.CompletionDurationsOne | backend/src/utils/stats.js:24-31 | A single task contributes its duration when it has one, and nothing otherwise. |
| Stats.RateWithin | backend/src/utils/stats.js:17-19 | The rounded completion rate lies in [0, 100]. |
| Stats.BuildStats | backend/src/utils/stats.js:7-48 | active + completed = total. Overdue counts the unfinished tasks due strictly before now, and is at most active. For a non-empty list the rate is completed/total×100 rounded to one decimal, in [0, 100]. The three averages are `Average` of the urgency scores, importance scores and completion durations, with average completion hours ≥ 0. The focus score is computed from the rounded averages. An empty list gives all zeros. |
| Stats.ScoresStayInUnit | backend/src/utils/stats.js:21-35 | With every stored score in [0, 1], both averages and the focus score are in [0, 1]. |
| Stats.CompletionRateOfTenWithFour | backend/src/utils/stats.js:17-19 | Four completed tasks out of ten give a rate of 40.0. |
| TaskController.Status | backend/src/controllers/taskController.js:17-45 | 404 exactly for an unknown id, 400 for either title rejection. |
| TaskController.CreateTask | backend/src/controllers/taskController.js:14-31 | Refused iff the title is missing, empty or not a string. Otherwise the body's fields are kept, and the classification overrides the three score fields. `completedAt` is now when `completed` is true, and `undefined` otherwise. |
| TaskController.UpdatedCompletedAt | backend/src/controllers/taskController.js:57-61 | `completed === true` without a stored time: now. `completed === true` with one: the body's value. `completed === false`: null. Otherwise the body's value. |
| TaskController.UpdateTask | backend/src/controllers/taskController.js:33-70 | An empty title is refused before the lookup, and an unknown id gives not found. The patch carries the body's fields and the `completedAt` rule. The scores come from classifying `{...existing, ...payload}` exactly when one of title, description, dueDate, estimatedMinutes and tags is defined; otherwise they are the body's own. |
| TaskController.UpdateKeepsUnsentFields | backend/src/controllers/taskController.js:47-63 | After `existing.set`, every property the body does not send keeps its stored value. This covers the scores when nothing triggers reclassification, and `completedAt` when completing an already completed task. |
| TaskController.CompletionOnlyUpdateKeepsScores | backend/src/controllers/taskController.js:47-63 | A body holding only `completed` is accepted, does not reclassify, keeps the stored scores, and changes only `completed` and `completedAt`. |
| TaskController.EmptyTitleBeforeLookup | backend/src/controllers/taskController.js:38-45 | An empty title gives 400 even when no task has the id. |
| TaskDoc.SpreadAlgebra | backend/src/controllers/taskController.js:63 | The object spread has `{}` as unit, is associative, and is idempotent. |
| WikiLinks.CloseFromIsLazy | backend/src/utils/wikiLinks.js:9 | The closing position found is the first `]]` with no line terminator before it, and none is found iff no such `]]` exists. |
| WikiLinks.ExecLeftmost | backend/src/utils/wikiLinks.js:12 | `exec` returns the leftmost match at or after `lastIndex`, and fails iff there is none. |
| WikiLinks.ExecContents | backend/src/utils/wikiLinks.js:12-15 | The contents from `lastIndex` on are the found match's content followed by the contents after its `]]`. |
| WikiLinks.ExtractWikiLinks | backend/src/utils/wikiLinks.js:7-17 | Missing or empty text gives no links, and every link is trimmed. |
| WikiLinks.ExtractWikiLinksLoop | backend/src/utils/wikiLinks.js:7-17 | The `exec` loop that resumes after each `]]` yields exactly the extracted links. |
| WikiLinks.NoOpeningNoLinks | backend/src/utils/wikiLinks.js:9-16 | Text without `[[` has no links. |
| WikiLinks.LinkCountBound | backend/src/utils/wikiLinks.js:9-16 | There are no more links than `]]` positions in the text. |
| WikiLinks.LinkContents | backend/src/utils/wikiLinks.js:9-14 | Every link is trimmed, on one line, and free of `]]`. |
| WikiLinks.RenderRoundTrip | backend/src/utils/wikiLinks.js:7-17 | Trimmed, one-line links without `]`, written as `[[l]]` one after another, are extracted back in order. The empty list renders to "" and extracts to no links. |
| WikiLinks.ExampleTrimmed | backend/src/utils/wikiLinks.js:14 | `[[ Alpha ]]` gives ["Alpha"]. |
| WikiLinks.ExampleEmpty | backend/src/utils/wikiLinks.js:14 | `[[]]` gives [""]: empty links are kept. |
| WikiLinks.ExampleLineBreak | backend/src/utils/wikiLinks.js:9 | A line break inside the brackets prevents the match. |
| WikiLinks.ExampleLeftmost | backend/src/utils/wikiLinks.js:9-12 | `[[a [[b]]` gives ["a [[b"]: the match starts at the leftmost `[[` and ends at the first `]]`. |
| ModelUtils.PriorityLabel | ml/model_utils.py:231-240 | Each of the five labels as an if-and-only-if condition on the thresholds 0.75 and 0.35. |
| ModelUtils.PriorityLabelMonotone | ml/model_utils.py:231-240 | Raising either probability never moves the label down the display order. |
| ModelUtils.LabelSchemesDiffer | ml/model_utils.py:231-240 | Inputs on which the Python labels and the JavaScript fallback labels differ: (0.3, 0.3), (0.8, 0.7), (0.76, 0.76). |
| ModelUtils.HoursUntilDue | ml/model_utils.py:28-34 | 72 without a due date. The result always lies in [-240, 720]. Inside that range it is the exact hours until due. |
| ModelUtils.HoursUntilDueMonotone | ml/model_utils.py:33-34 | A later due time never gives fewer hours. |
| ModelUtils.HoursUntilDueExamples | ml/model_utils.py:28-34 | Due in exactly 72 h reads 72. A year ahead reads 720; a year ago reads -240. |
| ModelUtils.MinutesFeature | ml/model_utils.py:216-217 | The feature lies in [5, 720]. A missing or zero estimate reads 30. An estimate inside the range is kept. A positive one below 5 reads 5, and one above 720 reads 720. |
| ModelUtils.FeatureText | ml/model_utils.py:206-214 | The feature text is title, description and tag text joined by single spaces, with Python whitespace removed from both ends only. It is an infix of the joined text that is surrounded by whitespace alone, and it is itself trimmed. |
| ModelUtils.PrepareInput | ml/model_utils.py:205-228 | The row holds `FeatureText`, `HoursUntilDue` and `MinutesFeature` of the payload. So the text is stripped, hours and minutes are within their clamps, and the defaults are 72 and 30. |
| ModelUtils.TitleOnlyText | ml/model_utils.py:206-214 | A task with only a trimmed title has that title as its text. |
| ModelUtils.InnerSpacingKept | ml/model_utils.py:209-214 | With a trimmed title and tag text, the text is title, description and tags joined by single spaces. |
| TaskForm.Tidy | frontend/src/components/TaskForm.jsx:27-28 | Trimming and dropping empty pieces yields non-empty, trimmed tags, no more than there were pieces. |
| TaskForm.NormalizeTags | frontend/src/components/TaskForm.jsx:24-28 | Each tag is non-empty, trimmed and free of commas. There are at most one more tags than commas. |
| TaskForm.TagsRoundTrip | frontend/src/components/TaskForm.jsx:24-46 | Non-empty, trimmed, comma-free tags joined with ", " are normalised back to the same list. |
| TaskForm.NormalizeConcat | frontend/src/components/TaskForm.jsx:24-28 | The tags of `a + "," + b` are the tags of `a` followed by those of `b`: order is kept, and nothing is merged or deduplicated. |
| TaskForm.NormalizePiece | frontend/src/components/TaskForm.jsx:24-28 | Comma-free text gives its trimmed self as the one tag, or no tag when it is blank. |
| TaskForm.ToLocalInputValue | frontend/src/components/TaskForm.jsx:12-22 | '' iff the value is falsy or an invalid date. Otherwise, for a valid local time, the text is exactly twelve characters longer than the year's decimal text. |
| TaskForm.ClockRoundTrip | frontend/src/components/TaskForm.jsx:17-21 | The `-MM-DDTHH:mm` part of a valid local time has exactly twelve characters and reads back to the same month, day, hour and minute. |
| TaskForm.LocalInputRoundTrip | frontend/src/components/TaskForm.jsx:12-22 | The text shown in the input determines the local time: it parses back to the same year, month, day, hour and minute. |
| TaskForm.FormatExample | frontend/src/components/TaskForm.jsx:16-21 | 5 January 2024, 09:07 is shown as 2024-01-05T09:07. |
| TaskForm.SubmittedMinutes | frontend/src/components/TaskForm.jsx:71 | 60 for a zero or non-numeric estimate, otherwise the number. Never 0. |
| TaskForm.SubmitPayload | frontend/src/components/TaskForm.jsx:66-75 | No payload iff the date text is non-empty and unparseable (`toISOString` throws). Otherwise: the form's fields, the normalised tags, the minutes default, and null for an empty due date, with no score or time fields. |
| Decimal.Pad2Exact | frontend/src/components/TaskForm.jsx:17-20 | `String(n).padStart(2, '0')` of 0..99 is exactly two digits that read back as n. |
| Decimal.IntToStringRoundTrip | frontend/src/components/TaskForm.jsx:16 | The decimal text of the year reads back as the year. |
| Text.Split | frontend/src/components/TaskForm.jsx:26 | `split(',')` gives one more piece than there are commas, no piece holds a comma, and joining the pieces with ',' restores the text. |
| App.IndexOf | frontend/src/App.jsx:26-28 | `indexOf` gives the first position holding the label, or -1 iff the label is missing or not listed. |
| App.DisplayRankOfLabel | frontend/src/App.jsx:26-28 | The five labels rank 0 to 4, in display order. |
| App.DisplayRankOfOther | frontend/src/App.jsx:26-28 | Any other label, or none, ranks -1. |
| App.CompareMeaning | frontend/src/App.jsx:25-31 | The comparator orders by rank and then by due time, and is antisymmetric. |
| App.PrecedesIsConsistent | frontend/src/App.jsx:25-31 | The comparator is a total preorder. Two tasks tie iff they have the same rank and due time. |
| App.SortTasks | frontend/src/App.jsx:23-33 | The copy is ordered by the comparator and is a permutation of the tasks. |
| App.SortTasksStable | frontend/src/App.jsx:23-33 | Tied tasks keep the order the server sent them in. |
| App.UnknownLabelFirst | frontend/src/App.jsx:27-29 | A task with an unknown or missing label is shown before every task with one of the five labels. |
| App.SameLabelByDueDate | frontend/src/App.jsx:29-30 | With the same label, an earlier due time is shown first; a missing due time counts as the epoch. |
| App.ToggleRequest | frontend/src/App.jsx:50-58 | The request carries the task's id and a body with only `completed`, negated. |
| App.ToggleKeepsScores | frontend/src/App.jsx:50-58 | A toggle is never refused for a stored task and never reclassifies it. It flips `completed` and follows the `completedAt` rule. |
| App.SubmitRoute | frontend/src/App.jsx:35-48 | The payload goes to an update while a task is being edited, and to a creation otherwise. |
| App.SubmittedFormCreates | frontend/src/App.jsx:46 | A new task submitted from the form is accepted iff its title is non-empty. `completedAt` is set iff the box was ticked. The tags are the normalised ones. |
| Sorting.Sort | frontend/src/App.jsx:25 | For a total preorder, the result is sorted and a permutation of the input. |
| Sorting.SortKeepsTies | frontend/src/App.jsx:25 | The sort is stable: elements that tie keep their relative order. |

## Left out

- Persistence is not modelled. This covers Mongoose casting, validation and schema defaults (the 30-minute default of `backend/src/models/Task.js`), `findById`, `save`, and the HTTP status plumbing. The stored task is a parameter, and a handler's result is the object it hands to the store.
- The scorer process is not modelled: `spawn`, streaming stdin and stdout, and a possible double firing of `error` and `close`. Each candidate is reduced to one outcome value, and `JSON.parse` is an oracle.
- `sanitize_datetime` and `datetime.fromisoformat` parsing are not modelled. `hours_until_due` receives the parsed time as an optional millisecond value.
- The sklearn pipelines, training data and `predict.py` are not modelled: they are library code.
- The Gemini and Ollama clients, keep-alive, routes and other controllers are not modelled: they are network and server plumbing.
- Presentational React code is not modelled.
- Stats.RoundTo: models `Number(x.toFixed(d))` on exact reals, rounding half away from zero. It ignores the binary representation of doubles, so a tie such as 0.125 rounds up here even where the double is slightly below it.
- Stats.BuildStats: scores are exact reals. IEEE sums and quotients, and NaN scores, are not modelled.
- Prioritizer.Importance: `toLowerCase` is modelled as ASCII lower-casing. This is exact for the keyword test, because no non-ASCII character lower-cases to exactly one of the keywords' letters without extra characters. A non-string tag, on which `toLowerCase` throws, is not representable.
- Prioritizer.Urgency: hours are exact quotients. A missing `now` does not arise, because the clock is a parameter.
- ModelUtils.FeatureText: a non-string title or description, on which Python's `join` raises, is not representable. Tags that are not a list are represented by their `str()` text.
- App.SortTasks: due dates are valid times or missing. The server only stores valid dates, so the NaN branch of the comparator (an inconsistent comparator) is not modelled.
- TaskForm.ToLocalInputValue: the local calendar fields come from an oracle (`local`). Time zones and daylight saving are not modelled.
- TaskForm.SubmitPayload: `new Date(text)` of the input is an oracle (`parseLocal`), and `toISOString` is represented by the resulting time. Form values are the input's text; the numeric coercion `Number(...)` is given as an optional real.
- Prioritizer.Prioritize: the scorer's parsed fields are optional values, so a JSON `null` score reaches the task as `undefined`, whereas the source would store `null`. Both are read as 0 by the statistics and as "no label" by the list order, and the Mongoose casting that tells them apart is not modelled.
- Strings are sequences of Unicode code points, not UTF-16 code units. Nothing in the modelled code indexes strings by position, so this changes no result.
