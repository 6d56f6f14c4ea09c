# Skill tracker log store — a Dafny model

This project models the data core of a small front-end app for logging
practice sessions. Each session has a skill, a category, hours, notes, a date
and a timestamp. The model covers:

- the persisted log store of `src/utils/storage.js`: load, save, add, remove,
  today's entries and clear-all, over one JSON text kept under the key
  `ai-skill-tracker-logs-v1` of the browser's key/value storage;
- the aggregation in `src/Summary.jsx`: total hours, hours per skill and per
  category, the top skill, the combined notes, the notes snippet of
  `summarizeNotes`, and the categories listed by decreasing hours;
- the grouping in `src/DailyLog.jsx`: the day's total, entries grouped by
  category, and the sorted category names;
- the validation in `handleSubmit` of `src/SkillForm.jsx`, and its `reset`.

Modules, one per file:

- `wrappers.dfy`, module `Wrappers`: `Option`, for JavaScript's `null`
- `text.dfy`, module `Text`: the `\s` class, `trim`, `join`, and code-point string order
- `sorting.dfy`, module `Sorting`: stable sort by a comparator (`Array.prototype.sort`, which ECMAScript 2019 and later require to be stable)
- `entries.dfy`, module `Entries`: the entry record, `filter` on one field, and summing hours
- `storage.dfy`, module `Storage`: `storage.js`
- `grouping.dfy`, module `Grouping`: the reduce-into-an-object grouping of `DailyLog.jsx`
- `dailylog.dfy`, module `DailyLog`: `DailyLog.jsx`
- `sentences.dfy`, module `Sentences`: `notes.split(/(?<=[.!?])\s+/)`
- `summary.dfy`, module `Summary`: `Summary.jsx`
- `skillform.dfy`, module `SkillForm`: `handleSubmit` and `reset` of `SkillForm.jsx`

Storage is a `map<string, string>` that the operations take and return. JSON
is a `Codec` made of a `parse` that may report malformed or non-array text and
a `serialize`. `RoundTrips(c, xs)` says that `xs` serialises to a non-empty text
that parses back to `xs`. The storage lemmas ask it only of the one
collection they save, and `Storage.RoundTripsAchievable` shows that every
collection has such a codec. A write or removal that
the device refuses is a boolean input (`accepted`). The clock is an input:
today's date, and the id, date and timestamp of a new entry. `Number(text)` is
a parameter that returns `None` for NaN. JavaScript objects used as
dictionaries are modelled as sequences of keyed buckets in key-insertion order.

## Model

| member | source | states |
|---|---|---|
| `Storage.LoadLogs` | src/utils/storage.js:3-12 | Absent, empty, malformed and non-array stored text all read as no entries, and nothing is raised. A non-empty array text reads as exactly the entries it parses to |
| `Storage.SaveLogs` | src/utils/storage.js:14-20 | A refused write leaves the storage unchanged. An accepted write replaces only the text under the store's key |
| `Storage.SaveThenLoad` | src/utils/storage.js:3-20 | When the codec round-trips the saved collection, the next load returns exactly that collection |
| `Storage.AddLog` | src/utils/storage.js:22-26 | A refused save leaves the storage unchanged, and no other key ever changes |
| `Storage.AddLogAppends` | src/utils/storage.js:22-26 | After an accepted add, the stored collection is the previous one with the entry appended: one longer, with the old collection as its prefix |
| `Storage.RemoveLog` | src/utils/storage.js:28-31 | A refused save leaves the storage unchanged, and no other key ever changes |
| `Storage.RemoveLogKeepsOthers` | src/utils/storage.js:28-31 | After an accepted remove, the store holds exactly the entries whose id differs, each as often as before and in their old order. It is unchanged when no entry has the id |
| `Storage.RemoveLogIdempotent` | src/utils/storage.js:28-31 | Removing the same id twice leaves the same storage as removing it once |
| `Storage.TimestampOrderIsWeak` | src/utils/storage.js:35 | The timestamp comparison is a strict weak order, so the sort is well defined |
| `Storage.TiedIsSameTimestamp` | src/utils/storage.js:35 | Two entries tie under the comparator exactly when their timestamps are equal |
| `Storage.GetTodayLogsSpec` | src/utils/storage.js:33-36 | Today's list holds each stored entry dated today, as often as it is stored, and nothing else. It is in ascending timestamp order, and entries with equal timestamps keep their stored order |
| `Storage.ClearAll` | src/utils/storage.js:38-44 | An accepted clear removes the key and nothing else. A refused one changes nothing |
| `Storage.ClearAllEmpties` | src/utils/storage.js:38-44 | After an accepted clear, the next load returns no entries |
| `Storage.AddedEntryShowsToday` | src/utils/storage.js:22-36 | An entry added with today's date is in today's list afterwards |
| `Storage.RemovedEntryLeavesToday` | src/utils/storage.js:28-36 | After removing an id, no entry with that id is in today's list |
| `Storage.AsWrittenAgreesElsewhere` | src/utils/storage.js:3-12 | The as-written load, add, remove and today's list agree with the corrected ones whenever the stored text is not a non-array JSON value |
| `Storage.NonArrayTextThrows` | src/utils/storage.js:7 | With a non-array text stored, the as-written load returns a non-list, and the as-written add, remove and today's list throw, for any codec and whether or not the write would be accepted |
| `Storage.NonArrayTextRecovers` | src/utils/storage.js:3-31 | On the same stored text, the corrected load reads no entries, an add leaves exactly the new entry, and a remove leaves an empty collection |
| `Storage.GetTodayLogs` | src/utils/storage.js:33-36 | Its contract is stated by `Storage.GetTodayLogsSpec`: the stored entries dated today, ascending by timestamp, stable among equal timestamps |
| `Storage.LoadLogsAsWritten` | src/utils/storage.js:3-12 | `Storage.AsWrittenAgreesElsewhere` states that it equals the corrected load unless the text parses to a non-array value, and `Storage.NonArrayTextThrows` that it then returns a non-list |
| `Storage.AddLogAsWritten` | src/utils/storage.js:22-26 | `Storage.AsWrittenAgreesElsewhere` states that it returns the corrected add unless the text parses to a non-array value, and `Storage.NonArrayTextThrows` that it then throws |
| `Storage.RemoveLogAsWritten` | src/utils/storage.js:28-31 | `Storage.AsWrittenAgreesElsewhere` states that it returns the corrected remove unless the text parses to a non-array value, and `Storage.NonArrayTextThrows` that it then throws |
| `Storage.GetTodayLogsAsWritten` | src/utils/storage.js:33-36 | `Storage.AsWrittenAgreesElsewhere` states that it returns the corrected list unless the text parses to a non-array value, and `Storage.NonArrayTextThrows` that it then throws |
| `Sorting.SortBy` | src/utils/storage.js:35 | Sorting returns a permutation of its input |
| `Sorting.SortBySorted` | src/utils/storage.js:35 | Under a strict weak order, no element of the result comes before an earlier one |
| `Sorting.SortByStable` | src/utils/storage.js:35 | Under a strict weak order, the elements tied with any value keep their original relative order |
| `Entries.Filter` | src/utils/storage.js:29-35 | Its contract is stated by `Entries.FilterContents`, `Entries.FilterAppend` and `Entries.FilterIdempotent` |
| `Entries.SumHours` | src/DailyLog.jsx:4 | Its contract is stated by `Grouping.GroupByPartitions`, `DailyLog.TotalIsSumOfGroups` and `Summary.Aggregate`, which relate it to the group and bucket totals |
| `Entries.FilterContents` | src/utils/storage.js:29 | The filter keeps exactly the entries that pass, each as often as it occurs, and drops the rest |
| `Entries.FilterAppend` | src/utils/storage.js:29 | Filtering distributes over concatenation, so it keeps the input's relative order |
| `Entries.FilterIdempotent` | src/utils/storage.js:29 | Filtering twice on the same condition is the same as filtering once |
| `Text.Trim` | src/SkillForm.jsx:36 | The result is the input with a white-space prefix and suffix removed, and it has no white space at either end |
| `Text.TrimOfTrimmed` | src/SkillForm.jsx:36 | Trimming a string with no white space at either end returns it unchanged |
| `Text.LexTotal` | src/DailyLog.jsx:14 | Any two different strings are ordered one way or the other |
| `Text.LexTransitive` | src/DailyLog.jsx:14 | The string order is transitive |
| `Grouping.GroupBy` | src/DailyLog.jsx:7-12 | Its contract is stated by the four `Grouping.GroupBy…` lemmas below: distinct non-empty groups, one per occurring key, holding exactly that key's entries in input order, in first-occurrence order |
| `Grouping.GroupByKeys` | src/DailyLog.jsx:7-12 | Group keys are distinct, every group is non-empty, and the keys are exactly the field values that occur in the input |
| `Grouping.GroupByEntries` | src/DailyLog.jsx:7-12 | Each group holds exactly the input entries with its key, in input order |
| `Grouping.GroupByPartitions` | src/DailyLog.jsx:7-12 | Together the groups hold the input entry for entry, and their hours add up to the input's total |
| `Grouping.GroupByOrder` | src/DailyLog.jsx:7-12 | Groups appear in the order in which their keys first occur in the input |
| `Text.LexOrderIsWeak` | src/DailyLog.jsx:14 | The string order used by the default sort is a strict weak order |
| `DailyLog.Grouped` | src/DailyLog.jsx:7-12 | Its contract is stated by `DailyLog.GroupedSpec` |
| `DailyLog.Categories` | src/DailyLog.jsx:14 | Its contract is stated by `DailyLog.CategoriesSpec` |
| `DailyLog.CategoriesSpec` | src/DailyLog.jsx:14 | The category list is strictly ascending, so it has no repeats. It names exactly the groups, which are exactly the entries' categories, with "Other" for a missing one |
| `DailyLog.GroupedSpec` | src/DailyLog.jsx:7-12 | Every entry is in exactly one group, the one for its category, and each group lists its entries in input order |
| `DailyLog.TotalIsSumOfGroups` | src/DailyLog.jsx:4-12 | The day's total equals the hours summed group by group |
| `Sentences.Split` | src/Summary.jsx:6 | Its contract is stated by `Sentences.SplitSpec` and the four lemmas below |
| `Sentences.PiecesGlue` | src/Summary.jsx:6 | Gluing the pieces back together with the removed white-space runs gives back the text |
| `Sentences.SeparatorsAreSpace` | src/Summary.jsx:6 | Every removed run is non-empty white space |
| `Sentences.PiecesEndInTerminator` | src/Summary.jsx:6 | The piece before each removed run is non-empty and ends in `.`, `!` or `?` |
| `Sentences.PiecesAreMaximal` | src/Summary.jsx:6 | No piece contains a split position. Every piece after the first starts with a non-space or is the empty remainder, so each run was taken whole |
| `Sentences.SplitSpec` | src/Summary.jsx:6 | The four properties above, for the whole text |
| `Summary.FirstSentences` | src/Summary.jsx:6-7 | Its contract is stated by `Summary.SummaryOfOneSentence` and `Summary.SummaryOfTwoSentences`, and it bounds the snippet of `Summary.SummarizeNotes` |
| `Summary.SummarizeNotes` | src/Summary.jsx:3-8 | Empty notes give `""`. Otherwise the snippet is at most 300 characters, is a prefix of the first two pieces joined by a space. It is all of them when that fits, and exactly 300 characters otherwise |
| `Summary.SummaryOfOneSentence` | src/Summary.jsx:6-7 | Notes without a sentence break come back whole, cut to 300 characters |
| `Summary.SummaryOfTwoSentences` | src/Summary.jsx:6-7 | Two sentences separated by any white-space run split into exactly those two sentences. The snippet is them joined by one space, cut to 300 characters |
| `Summary.Tally` | src/Summary.jsx:17-20 | Its contract is stated by `Summary.TallySpec` and `Summary.TallyIsGroupTotals` |
| `Summary.TallyIsGroupTotals` | src/Summary.jsx:17-20 | The per-key totals are the hours of the corresponding groups, key by key and in the same order |
| `Summary.TallySpec` | src/Summary.jsx:17-20 | There is one bucket per distinct key, in first-occurrence order. Each bucket holds exactly that key's hours, and the buckets add up to the total hours |
| `Summary.TopSkill` | src/Summary.jsx:24-31 | The result is null exactly when no total is positive. Otherwise it is the key of the first bucket with the largest total |
| `Summary.Accumulate` | src/Summary.jsx:17-22 | The one-pass loop builds exactly the per-skill and per-category tallies. Its combined notes are the non-empty notes joined by single spaces |
| `Summary.Aggregate` | src/Summary.jsx:11-33 | The total is the sum of all hours and of each breakdown. Each bucket holds exactly its key's hours, and keys are distinct, with "Other" for a missing category. Skills and categories are each in first-occurrence order. The top skill is null exactly when no skill has positive hours, and is otherwise the earliest skill with the largest total. The notes are joined by single spaces |
| `Summary.ByHours` | src/Summary.jsx:59-60 | Its contract is stated by `Summary.ByHoursSpec` |
| `Summary.ByHoursSpec` | src/Summary.jsx:59-60 | The "By Category" list holds the same buckets in non-increasing hours. Buckets with equal hours stay in insertion order |
| `Summary.SkillCountsAsWritten` | src/Summary.jsx:13-18 | The as-written per-skill counts. `Summary.ToStringSkillCounterexample` shows that they differ from `Summary.Tally` on a "toString" skill |
| `Summary.TopSkillAsWritten` | src/Summary.jsx:24-31 | The as-written top-skill scan. `Summary.InheritedNameNeverTop` states that it never picks an inherited name |
| `Summary.InheritedNameNeverTop` | src/Summary.jsx:18 | As written, a skill named like an `Object.prototype` member is never the top skill |
| `Summary.ToStringSkillCounterexample` | src/Summary.jsx:18 | On one two-hour "toString" entry, the as-written top skill is null, while the corrected tally has a positive bucket for it |
| `SkillForm.Submit` | src/SkillForm.jsx:34-60 | An entry is added exactly when the trimmed skill is non-empty and the hours text parses to a number above 0. The skill error takes precedence. A rejection only sets the error. An acceptance resets the form and builds the entry from the trimmed skill and notes, the parsed hours, the selected category and the clock |
| `SkillForm.AcceptedEntryIsValid` | src/SkillForm.jsx:36-56 | Every accepted entry has a non-empty trimmed skill, positive hours and trimmed notes, so trimming them again changes nothing |
| `SkillForm.BlankFormRejected` | src/SkillForm.jsx:26-42 | The reset form is rejected on its skill, so submitting again right after a success adds nothing |
| `SkillForm.SubmittedEntryShowsToday` | src/SkillForm.jsx:48-58 | Once added to the store, an accepted entry is in that day's list |

## Left out

- Undo/redo history: `SkillForm` declares `onUndo`/`onRedo`/`canUndo`/`canRedo` props (src/SkillForm.jsx:19) that `App` never passes (src/App.jsx:37), and `storage.js` keeps one collection, so there is no history to model.
- React rendering, hooks, JSX markup and the text of the summary panel (plurals, counts of keys) are presentation, not modelled. `App.jsx`, `ErrorBoundary.jsx` and `Header.jsx` are glue around the modelled functions.
- `src/utils/ai.js` and `api/generateSummary.js` are network clients for language-model APIs, so they are not part of this model.
- `localStorage` and JSON are abstracted as a map and a `Codec`. A `getItem` that throws gives the same empty result as malformed text and is not modelled separately. The shape of each element inside a stored array is not checked.
- `Date.now()` and `new Date()` are inputs. The model does not require ids to be unique, and two entries created in the same millisecond would share an id and be removed together.
- Hours are exact `real`s. IEEE-754 rounding, `Infinity`, and stored hours that are not numbers (`Number(l.hours || 0)`) are not modelled.
- `SkillForm.Submit`: `Number(text)` is a parameter, not a parser of JavaScript numeric literals.
- `Text.LexBefore`: it orders by Unicode code point. `localeCompare` uses locale collation, and the default sort compares UTF-16 code units. The three agree on the ISO timestamps and the fixed category names the app stores, but not on all strings. For the same reason `slice(0, 300)` is modelled per code point, not per UTF-16 unit.
- `Sorting.SortBy`: it is insertion sort. A sorted, stable permutation is unique, so any conforming engine gives the same result, but that uniqueness is not proved here.
- `Summary.Tally`, `Grouping.GroupBy`: JavaScript lists keys that look like array indices (such as `"7"`) before all other keys, in numeric order. The model keeps every key in insertion order, so for numeric skill names the first-occurrence order and the tie-break of the top skill can differ from the browser, and so can the order of `DailyLog`'s groups for numeric category names (the rendered categories are re-sorted by name, so only the unsorted grouping is affected).
- `Grouping.GroupBy`, `Summary.Aggregate` (categoryCounts, src/Summary.jsx:20): the accumulators are treated as having only their own keys. A stored category named like an `Object.prototype` member would make `acc[category].push` in `DailyLog.jsx` throw. In `Summary.jsx` it would turn that category's count into a string, which breaks the `b[1] - a[1]` sort, and a category `__proto__` would be dropped. The form's fixed category choices cannot produce such a category, so only the skill lookup of src/Summary.jsx:18 is recorded under "## Findings".

## Findings

| source | as written | input that shows it | evidently intended | confidence | as-written member | corrected member |
|---|---|---|---|---|---|---|
| src/Summary.jsx:18 | `skillCounts[l.skill] \|\| 0` also finds members inherited from `Object.prototype`, so the count of such a skill becomes a string and `hrs > max` is never true for it | one entry with skill `toString` and 2 hours: top skill is null | totals over the object's own keys only; `toString` is the top skill | medium, not executed | `Summary.ToStringSkillCounterexample` | `Summary.Aggregate` |
| src/utils/storage.js:7 | `return JSON.parse(raw)` returns whatever the text parses to, so a stored `"null"` makes `logs.push` in `addLog`, `.filter` in `removeLog` (src/utils/storage.js:29) and `.filter` in `getTodayLogs` throw, despite the `try`/`catch` meant to absorb bad stored data | stored text `null` under `ai-skill-tracker-logs-v1` | a non-array value reads as no entries | medium, not executed | `Storage.NonArrayTextThrows` | `Storage.LoadLogs` |
