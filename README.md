# LeetTrack core in Dafny

LeetTrack is a personal tracker for interview coding questions, grouped by
company. A user uploads a CSV list of questions for a company, ticks
questions off, and sees per-company and global statistics, a daily streak
and a one-year activity heat map. This project models the logic behind that:

- **CSV ingestion** (`csv_parser.dfy`, module `CsvParser`). This is
  `parseCSV` and its helpers `parseCSVLine`, `parseDifficulty`,
  `parseTopics` and `parseBoolean`. Blank lines are dropped. Columns are
  found by keyword in the header, a data line is split on commas outside
  double quotes, short rows are skipped, and every field falls back to a
  default.
- **The store** (`storage.dfy`, class `Storage.Store`). This is
  `storage.ts`: the question list and the daily progress log are the two
  fields of one object, and every exported operation is a method over
  them. Each method is proved equal to a specification function:
  - `store_questions.dfy` specifies tagging, grouping by company,
    de-duplication by normalised title, toggling and deletion.
  - `store_progress.dfy` specifies the progress log and the streak.
  - The lemmas about those functions state what the store promises.
- **Company statistics** (`company_stats.dfy`). This is the `CompanyData`
  record. It is built the same way in `getCompanyData` and on the
  company page, together with that page's completion percentage.
- **The question table** (`question_table.dfy`). This is the search and
  drop-down filter, and the topic badges of a row.
- **The all-questions page** (`all_questions.dfy`). This is its own
  title de-duplication loop and its three counters.
- **The streak calendar** (`streak_calendar.dfy`). This is the loop that
  lays out 53 week columns ending today, and the five intensity shades.

Supporting modules:
- `seqs.dfy` holds `Array.prototype.filter`, `map` and first-occurrence
  de-duplication, plus the reading back of a JS `Map` in insertion order.
- `text.dfy` holds the string built-ins the code relies on: `trim`,
  `toLowerCase`, `includes`, `split`, `replace` of the first occurrence
  and decimal formatting.
- `types.dfy` holds the records.

Dates are whole day numbers counted from 1970-01-01, the date that
`toISOString().split('T')[0]` names. "Today" is a parameter of every
operation that reads the clock. The id of a new question comes from an
`IdSource` function parameter, which stands for the
`` `${companyName}-${q.title}-${Date.now()}-${index}` `` template.

Three behaviours of the code are worth stating plainly, because the model
keeps them as they are:
- `parseCSV` returns `[]` for a file with fewer than two non-blank lines
  and throws nothing.
- The header row is split with a plain `split(',')`, while data rows go
  through the quote-aware `parseCSVLine`.
- Toggling an id that no question has changes nothing and reports nothing.

## Model

| member | source | states |
|---|---|---|
| CsvParser.ParseCSVLine | leetracker/src/lib/csvParser.ts:45-65 | the loop returns `LineFields(line)`, the trimmed fields of the quote-toggling split |
| CsvParser.LineFieldsSpec | leetracker/src/lib/csvParser.ts:45-65 | a line yields one more field than it has commas outside quotes; no field holds a double quote, and every field is trimmed |
| CsvParser.ScanCounts | leetracker/src/lib/csvParser.ts:50-61 | after a prefix, the splitter is inside quotes exactly when it has seen an odd number of quotes, and it has closed one field per unquoted comma |
| CsvParser.ScanClean | leetracker/src/lib/csvParser.ts:53-60 | quote characters toggle the mode and are never copied into a field |
| CsvParser.ParseDifficultyMeaning | leetracker/src/lib/csvParser.ts:67-72 | Easy iff the lower-cased value contains "easy"; Hard iff it contains "hard" but not "easy"; Medium otherwise; trimming never changes the verdict |
| CsvParser.ParseTopicsSpec | leetracker/src/lib/csvParser.ts:74-81 | "" gives []; otherwise the result is, in order and with every repetition kept (equal multiplicities), exactly the non-empty trimmed pieces of the value with `[`, `]` and `"` removed and split on `,`, `;` and `|`; every topic is non-empty, trimmed and free of those characters |
| CsvParser.TopicPiecesClean | leetracker/src/lib/csvParser.ts:76-79 | every piece before the empty-filter is trimmed and free of the stripped and separator characters |
| CsvParser.ParseBooleanIgnoresPadding | leetracker/src/lib/csvParser.ts:83-87 | leading or trailing whitespace never changes the parsed flag |
| CsvParser.ParseBooleanIgnoresCase | leetracker/src/lib/csvParser.ts:85-86 | lower-casing the value first never changes the parsed flag |
| CsvParser.FindColumn | leetracker/src/lib/csvParser.ts:9-15 | -1 iff no header contains the keyword; otherwise the first header that contains it |
| CsvParser.DefaultTitle | leetracker/src/lib/csvParser.ts:24 | the synthesised title `Question i` is non-empty and trimmed |
| CsvParser.RowDraft | leetracker/src/lib/csvParser.ts:23-39 | every parsed row has a non-empty, trimmed title |
| CsvParser.RowTitle | leetracker/src/lib/csvParser.ts:24 | a missing or blank title becomes `Question ` followed by decimal digits that read back as the row index; a given title is a slice of the field with only leading and trailing whitespace removed |
| CsvParser.AbsentFieldsDefault | leetracker/src/lib/csvParser.ts:23-29 | a missing column or a short row gives the defaults: Medium, `Question i`, 0, 0, "", no topics, not completed |
| CsvParser.LinesSpec | leetracker/src/lib/csvParser.ts:4 | the parser reads exactly the non-blank lines of the newline split, in order, each as often as it occurs; none is blank and none is skipped |
| CsvParser.ParseCSV | leetracker/src/lib/csvParser.ts:3-43 | the method returns `Parsed(content)`: [] for fewer than two lines, otherwise the loop's collected drafts |
| CsvParser.CollectDrafts | leetracker/src/lib/csvParser.ts:19-40 | the row loop builds, in order, one draft per data line with at least two fields |
| CsvParser.ParsedRows | leetracker/src/lib/csvParser.ts:3-43 | fewer than two lines give []; otherwise draft j comes from data line `kept[j]`, the kept lines rise strictly, every data line with two or more fields is kept, and there are at most (lines - 1) drafts |
| CsvParser.KeptRowsUpTo | leetracker/src/lib/csvParser.ts:19-40 | the same correspondence for the first n lines |
| CompanyStats.DifficultyPartition | leetracker/src/lib/storage.ts:42-44 | easy + medium + hard counts equal the number of questions |
| CompanyStats.StatsWellFormed | leetracker/src/pages/CompanyQuestions.tsx:29-37 | the record keeps the name and list; the total is the list length; the three difficulty counts sum to it; completed is at most the total |
| CompanyStats.CompletedCountAll | leetracker/src/pages/CompanyQuestions.tsx:33 | all questions completed gives completed == total; none completed gives 0 |
| CompanyStats.CompletionPercentage | leetracker/src/pages/CompanyQuestions.tsx:72-75 | 0 for an empty company; otherwise the integer nearest to 100·completed/total, halves rounded up |
| CompanyStats.PercentageBounds | leetracker/src/pages/CompanyQuestions.tsx:72-75 | the percentage lies in 0..100; nothing completed gives 0; everything completed gives 100 |
| CompanyStats.PercentageMonotone | leetracker/src/pages/CompanyQuestions.tsx:72-75 | completing more questions never lowers the percentage |
| CompanyStats.StatsPercentage | leetracker/src/pages/CompanyQuestions.tsx:29-75 | the page's percentage is within 0..100; it is 0 for an empty list and 100 when all are completed |
| StoreQuestions.Tagged | leetracker/src/lib/storage.ts:18-22 | one question per draft, tagged with the company and the generated id, with every draft field kept |
| StoreQuestions.AddBatchSpec | leetracker/src/lib/storage.ts:15-26 | the store grows by exactly the batch, the old questions come first unchanged, the company gains the batch at the end of its list, and every other company is unchanged |
| StoreQuestions.ByCompanySpec | leetracker/src/lib/storage.ts:32-35 | a company's list is, in store order, exactly the questions tagged with it |
| StoreQuestions.AbsentCompanyEmpty | leetracker/src/lib/storage.ts:33 | a company never seen has no questions (the `|| []` default) |
| StoreQuestions.CompanyGroupsSpec | leetracker/src/lib/storage.ts:28-46 | one record per company in first-appearance order; each record holds that company's questions (non-empty) and well-formed stats; every question's company has a record |
| StoreQuestions.CompanyNamesDistinct | leetracker/src/lib/storage.ts:30-35 | no company gets two records |
| StoreQuestions.CompanyTotalsSum | leetracker/src/lib/storage.ts:37-45 | the company totals add up to the number of stored questions |
| StoreQuestions.CountOverAll | leetracker/src/lib/storage.ts:32-35 | every question lands in exactly one company's list |
| StoreQuestions.UniqueTitlesSpec | leetracker/src/lib/storage.ts:48-60 | the result is a subsequence of the store with pairwise different normalised titles; every title is represented; each kept question is the first one with its title, and every such first question is kept |
| StoreQuestions.DedupStep | leetracker/src/lib/storage.ts:52-57 | one more question is appended exactly when its normalised title is new |
| StoreQuestions.FindById | leetracker/src/lib/storage.ts:64 | `find`: None iff no question has the id; otherwise the first index with it |
| StoreQuestions.ToggledQuestionsSpec | leetracker/src/lib/storage.ts:62-68 | an unknown id changes nothing; otherwise the first question with the id has its flag flipped and nothing else changes |
| StoreQuestions.ToggleKeepsIds | leetracker/src/lib/storage.ts:62-68 | toggling changes no lookup by id |
| StoreQuestions.ToggleTwiceQuestions | leetracker/src/lib/storage.ts:62-68 | toggling twice restores the question list |
| StoreQuestions.WithoutCompanySpec | leetracker/src/lib/storage.ts:152-156 | deletion keeps, in order, exactly the questions of other companies; kept plus removed equals the old size |
| StoreQuestions.WithoutCompanyEffect | leetracker/src/lib/storage.ts:152-156 | afterwards the company has no questions, every other company's list is unchanged, and deleting again changes nothing |
| StoreQuestions.WithoutCompanyEmptiesIt | leetracker/src/lib/storage.ts:154 | the deleted company has no questions left |
| StoreQuestions.WithoutCompanyKeepsOthers | leetracker/src/lib/storage.ts:154 | other companies' lists are unchanged |
| StoreQuestions.WithoutCompanyIdempotent | leetracker/src/lib/storage.ts:152-156 | deleting twice equals deleting once |
| StoreProgress.FindDate | leetracker/src/lib/storage.ts:87 | `find` by date: None iff no entry has the date; otherwise the first such entry |
| StoreProgress.AddedSpec | leetracker/src/lib/storage.ts:83-103 | with no entry for today, a new entry `(today, 1, [id])` is appended; if today's entry already lists the id, the log is unchanged; otherwise only today's entry changes, gaining the id at the end with count = list length; today's entry then lists the id; consistency is kept |
| StoreProgress.AddedToday | leetracker/src/lib/storage.ts:87-100 | after adding, today has an entry and it lists the id |
| StoreProgress.AddedConsistent | leetracker/src/lib/storage.ts:89-100 | adding keeps dates distinct, ids distinct per entry and count equal to the list length |
| StoreProgress.RemovedSpec | leetracker/src/lib/storage.ts:105-116 | with no entry for today, nothing changes; otherwise only today's entry changes: its list loses every occurrence of the id and keeps every other id in order with its multiplicity, and count becomes its length; consistency is kept |
| StoreProgress.RemovedDropsId | leetracker/src/lib/storage.ts:109-113 | today's entry exists after removal iff it existed before, and it no longer lists the id |
| StoreProgress.FilterNoDuplicates | leetracker/src/lib/storage.ts:112 | filtering a duplicate-free id list keeps it duplicate-free |
| StoreProgress.ToggleUnknownId | leetracker/src/lib/storage.ts:62-76 | an id no question has changes neither the questions nor the progress log |
| StoreProgress.AddThenRemove | leetracker/src/lib/storage.ts:83-116 | add then remove equals a plain remove when today's entry exists; otherwise it leaves an empty entry `(today, 0, [])` |
| StoreProgress.AddThenRemoveExisting | leetracker/src/lib/storage.ts:83-116 | with an entry for today, add then remove equals remove |
| StoreProgress.AddThenRemoveNew | leetracker/src/lib/storage.ts:94-116 | with no entry for today, add then remove leaves `(today, 0, [])` appended |
| StoreProgress.RemoveAbsent | leetracker/src/lib/storage.ts:105-116 | in a consistent log, removing an id today's entry does not list changes nothing |
| StoreProgress.ToggleTwice | leetracker/src/lib/storage.ts:62-116 | toggling an open question twice restores the questions and leaves today's entry without the id; the log is back as it was when today's entry existed without the id |
| StoreProgress.ActiveDates | leetracker/src/lib/storage.ts:122-124 | the active dates are at most as many as the entries |
| StoreProgress.ActiveDatesMembership | leetracker/src/lib/storage.ts:122-124 | a date is active iff some entry with that date has count > 0 |
| StoreProgress.ActiveDatesDistinct | leetracker/src/lib/storage.ts:122-124 | distinct entry dates give distinct active dates |
| StoreProgress.SortDescSpec | leetracker/src/lib/storage.ts:125 | the sort yields a newest-first permutation of the dates |
| StoreProgress.InsertSpec | leetracker/src/lib/storage.ts:125 | inserting into a newest-first list keeps it sorted and adds exactly the element |
| StoreProgress.RunFrom | leetracker/src/lib/storage.ts:137-147 | the counting loop stops between its start and the end of the list |
| StoreProgress.RunFromSpec | leetracker/src/lib/storage.ts:137-147 | up to where it stops the dates fall one day at a time, and it stops at the end or at a gap other than one day |
| StoreProgress.StreakBound | leetracker/src/lib/storage.ts:118-150 | the streak never exceeds the number of active dates |
| StoreProgress.SortedNewest | leetracker/src/lib/storage.ts:122-132 | the head of the sorted list is an active date, and no active date is later |
| StoreProgress.StreakSpec | leetracker/src/lib/storage.ts:118-150 | for distinct active dates: 0 iff none is active or the newest is neither today nor yesterday; otherwise the streak n is the length of the unbroken run of days ending at the newest date (all n are active, the day before is not) |
| StoreProgress.ActiveRun | leetracker/src/lib/storage.ts:136-147 | the loop's count is the maximal run of consecutive active days ending at the newest |
| StoreProgress.ConsistentDistinctActive | leetracker/src/lib/storage.ts:87-100 | a log kept by the store has distinct active dates, so the streak characterisation applies to it |
| StoreProgress.StreakSamples | leetracker/src/lib/storage.ts:118-150 | yesterday and today active gives 2; today with a two-day gap gives 1; a last activity three days ago gives 0 |
| Storage.Store.constructor | leetracker/src/lib/storage.ts:6-9 | an empty browser store reads back two empty lists |
| Storage.Store.AddQuestionsForCompany | leetracker/src/lib/storage.ts:15-26 | the stored questions become the old ones followed by the tagged batch; the log is unchanged |
| Storage.Store.GetCompanyData | leetracker/src/lib/storage.ts:28-46 | the `Map`-grouping loop returns `CompanyGroups(questions)` |
| Storage.Store.GetAllUniqueQuestions | leetracker/src/lib/storage.ts:48-60 | the first-wins `Map` loop returns `UniqueTitles(questions)` |
| Storage.Store.ToggleQuestionComplete | leetracker/src/lib/storage.ts:62-76 | the new questions and log are the toggle functions of the old ones, and a consistent log stays consistent |
| Storage.Store.AddToProgress | leetracker/src/lib/storage.ts:83-103 | the log becomes `Added(old, today, id)` and stays consistent; the questions are unchanged |
| Storage.Store.RemoveFromProgress | leetracker/src/lib/storage.ts:105-116 | the log becomes `Removed(old, today, id)` and stays consistent; the questions are unchanged |
| Storage.Store.GetStreak | leetracker/src/lib/storage.ts:118-150 | the early returns and the counting loop give `Streak(progress, today)` |
| Storage.Store.DeleteCompany | leetracker/src/lib/storage.ts:152-156 | the questions become those of the other companies; the log is unchanged |
| Storage.Store.ClearAllData | leetracker/src/lib/storage.ts:158-161 | both lists read back empty |
| Storage.GroupMapStep | leetracker/src/lib/storage.ts:32-35 | one `forEach` step keeps the map equal to the per-company lists of the questions seen so far, with new companies recorded in order |
| Storage.GroupStep | leetracker/src/lib/storage.ts:32-35 | one more question adds its company at the end if it is new, and extends only that company's list |
| QuestionTable.FilteredSpec | leetracker/src/components/questions/QuestionTable.tsx:40-52 | the table shows, in order, exactly the questions passing the search, difficulty and status tests, each as many times as it occurs in the input |
| QuestionTable.InitialFilterShowsAll | leetracker/src/components/questions/QuestionTable.tsx:36-52 | with the initial controls (empty search, both drop-downs on "all") every question is shown |
| QuestionTable.EmptySearchMatches | leetracker/src/components/questions/QuestionTable.tsx:41-43 | an empty search matches every question |
| QuestionTable.SearchIgnoresCase | leetracker/src/components/questions/QuestionTable.tsx:42-43 | a search and its lower-cased form match the same questions |
| QuestionTable.DifficultyFilterSpec | leetracker/src/components/questions/QuestionTable.tsx:44-45 | a difficulty choice shows only that difficulty; a value naming none shows nothing |
| QuestionTable.CompletedFilterSpec | leetracker/src/components/questions/QuestionTable.tsx:46-49 | "completed" shows only completed rows, "pending" only open ones, and any other value except "all" shows nothing |
| QuestionTable.CompletedFilterNarrows | leetracker/src/components/questions/QuestionTable.tsx:46-51 | choosing a status only hides rows shown with "all" |
| QuestionTable.TopicBadgesSpec | leetracker/src/components/questions/QuestionTable.tsx:200-213 | up to three topics are shown as they are; with more, the first three are shown and a `+n` badge follows, n being the number of hidden topics |
| AllQuestions.LoadQuestions | leetracker/src/pages/AllQuestions.tsx:18-29 | the de-duplication loop returns `UniqueTitles(allQuestions)`, the first question of each normalised title |
| AllQuestions.DedupOfUniqueUnchanged | leetracker/src/pages/AllQuestions.tsx:22-29 | de-duplicating an already de-duplicated list changes nothing |
| AllQuestions.Counts | leetracker/src/pages/AllQuestions.tsx:39-40 | the total is the list length; completed is at most the total; remaining is non-negative and completed + remaining = total |
| AllQuestions.PageCountsSpec | leetracker/src/pages/AllQuestions.tsx:39-90 | the unique count never exceeds the raw count and is 0 only for no questions; all completed gives remaining 0; none completed gives completed 0 |
| AllQuestions.DedupSize | leetracker/src/pages/AllQuestions.tsx:22-29 | de-duplication never adds questions and empties only an empty list |
| AllQuestions.DedupCompletion | leetracker/src/pages/AllQuestions.tsx:22-40 | if all (or none) of the questions are completed, so are all (or none) of the unique ones |
| StreakCalendar.Weekday | leetracker/src/components/dashboard/StreakCalendar.tsx:17 | `getDay()` is in 0..6 |
| StreakCalendar.StartDateSpec | leetracker/src/components/dashboard/StreakCalendar.tsx:15-17 | the first day shown is a Sunday, 364 to 370 days before today |
| StreakCalendar.ProgressMapSpec | leetracker/src/components/dashboard/StreakCalendar.tsx:19 | the map's keys are exactly the logged dates, and each holds the count of the last entry with that date |
| StreakCalendar.CellCount | leetracker/src/components/dashboard/StreakCalendar.tsx:28 | a day with no entry counts 0; otherwise it gets the count of its last entry |
| StreakCalendar.CalendarData | leetracker/src/components/dashboard/StreakCalendar.tsx:10-44 | the loop returns the days from the start date to today, cut into weeks of seven with a final partial week |
| StreakCalendar.WeeksShape | leetracker/src/components/dashboard/StreakCalendar.tsx:31-41 | ceil(n/7) weeks; every week but the last has 7 days and the last has 1..7; day k of week w is day 7w+k |
| StreakCalendar.CalendarLayout | leetracker/src/components/dashboard/StreakCalendar.tsx:10-44 | exactly 53 columns: 52 full weeks, then a last week of 1..7 days ending today |
| StreakCalendar.CalendarCells | leetracker/src/components/dashboard/StreakCalendar.tsx:21-37 | cell k of week w is the date start + 7w + k, falls on weekday k, and carries that date's logged count |
| StreakCalendar.ShadeLevel | leetracker/src/components/dashboard/StreakCalendar.tsx:46-52 | a shade's position in the five-shade scale (5 for any other string) |
| StreakCalendar.ShadesDistinct | leetracker/src/components/dashboard/StreakCalendar.tsx:46-52 | the five classes are pairwise different |
| StreakCalendar.IntensityBuckets | leetracker/src/components/dashboard/StreakCalendar.tsx:46-52 | shade 0 iff count 0; shade 1 iff count 1; shade 2 iff 2..3 (or negative); shade 3 iff 4..5; shade 4 iff 6 or more |
| StreakCalendar.IntensityMonotone | leetracker/src/components/dashboard/StreakCalendar.tsx:46-52 | for non-negative counts, more completions never give a lighter shade |
| Seqs.Filter | leetracker/src/lib/storage.ts:154 | `filter` keeps only elements passing the test and never lengthens the list |
| Seqs.FilterMembership | leetracker/src/lib/storage.ts:154 | an element survives `filter` iff it was present and passes the test |
| Seqs.FilterCount | leetracker/src/lib/storage.ts:154 | `filter` keeps every occurrence of an element that passes the test and none of one that fails it |
| Seqs.FilterIsSubseq | leetracker/src/lib/storage.ts:154 | `filter` keeps the original order |
| Seqs.UniqueBySpec | leetracker/src/lib/storage.ts:52-59 | first-wins de-duplication keeps a subsequence with distinct keys that covers every key |
| Seqs.UniqueByIndices | leetracker/src/lib/storage.ts:52-59 | the kept elements are exactly the first occurrences of their keys, in order |
| Seqs.UniqueByIdempotent | leetracker/src/lib/storage.ts:52-59 | de-duplicating twice equals de-duplicating once |
| Seqs.ReadsBackInsert | leetracker/src/lib/storage.ts:55 | `Map.set` of a new key appends it, with its value, to the insertion-order read-back |
| Text.Trim | leetracker/src/lib/csvParser.ts:56 | `trim()` leaves no whitespace at either end and never lengthens |
| Text.TrimIsSlice | leetracker/src/lib/csvParser.ts:56 | `trim()` removes only leading and trailing whitespace |
| Text.TrimIdempotent | leetracker/src/lib/csvParser.ts:68 | trimming twice equals trimming once |
| Text.ToLower | leetracker/src/lib/csvParser.ts:68 | `toLowerCase()` keeps the length, leaves no upper-case letter, and leaves every other character in place |
| Text.ToLowerFixed | leetracker/src/components/questions/QuestionTable.tsx:42-43 | a string is its own lower-case form exactly when it holds no upper-case letter |
| Text.ToLowerIdempotent | leetracker/src/components/questions/QuestionTable.tsx:42-43 | lower-casing twice equals lower-casing once, so a search already in lower case is not changed by `search.toLowerCase()` |
| Text.ContainsTrim | leetracker/src/lib/csvParser.ts:68-70 | trimming never changes whether a keyword with no whitespace at its ends is contained |
| Text.Split | leetracker/src/lib/csvParser.ts:4 | `split` returns at least one piece |
| Text.SplitPieces | leetracker/src/lib/csvParser.ts:78 | `split` gives one more piece than there are separators, and no piece holds a separator |
| Text.SplitJoin | leetracker/src/lib/csvParser.ts:4 | joining the pieces of a split with its separator gives back the string |
| Text.RemoveCharsSpec | leetracker/src/lib/csvParser.ts:77 | the global `replace` keeps, in order, exactly the characters outside the class, every occurrence of each, and drops every occurrence of those inside it |
| Text.RemoveFirst | leetracker/src/lib/csvParser.ts:26 | `replace('%', '')` removes one character when a `%` is present, and nothing otherwise |
| Text.RemoveFirstRestores | leetracker/src/lib/csvParser.ts:26 | putting the `%` back at its first position restores the field |
| Text.NatToString | leetracker/src/components/questions/QuestionTable.tsx:211 | a number is written as a non-empty string of decimal digits with no leading zero (only 0 itself starts with `0`) |
| Text.NatToStringRoundTrip | leetracker/src/components/questions/QuestionTable.tsx:211 | reading the decimal digits back gives the number |
| Types.UntagTag | leetracker/src/lib/storage.ts:18-22 | `{ ...q, id, company }` keeps every draft field and sets the id and the company |

## Left out

- `parseFloat` is not modelled. A numeric field is `Zero` when absent, else the text handed to `parseFloat(…) || 0`, left uninterpreted. So the model does not state that `frequency` and `acceptanceRate` are numbers, or what values they take.
- CompanyStats.CompletionPercentage: `Math.round` is modelled on the exact ratio 100·completed/total. Floating-point rounding of that ratio is not modelled, so at an exact .5 the model can round up where the floating-point product falls just below (29 of 200).
- Dates and the clock. Wall-clock time, time zones and daylight saving are not modelled. Neither is the calendar's mix of local `getDay`/`setDate` with UTC `toISOString`. Every date is a UTC day number, and today is a parameter.
- Ids. The `companyName-title-Date.now()-index` template is an `IdSource` parameter, so the model neither states nor relies on ids being unique.
- Persistence. The localStorage keys and JSON encoding become the two fields of `Storage.Store`, and reads and writes are field accesses. The remote API (`api.ts`), through which the pages fetch their questions, is not part of this model: the pages' functions take the fetched list as a parameter.
- Text.ToLower: only ASCII letters are lower-cased. The Unicode case mapping of `toLowerCase` is not modelled.
- The company page builds the same record as `getCompanyData`. It is modelled by `CompanyStats.Stats`, not by a separate function.
- `getStoredQuestions` and `getDailyProgress` are reads of the two fields.
- Rendering is not modelled: React state, the table markup, tooltips, month labels, the dashboard and header cards, the admin pages (`CompanyManager`, `CSVUploader`, `AdminAuth`) and authentication. None of these affects the values above.
- Concurrency and failures. Errors of the asynchronous API calls, and the non-atomic pair of toggle and progress update, are outside a single-threaded value model.
