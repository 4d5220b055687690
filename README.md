# Munajaa gratitude widget — a Dafny model

This project models the core of the munajaa page script in Dafny:

- **The gratitude journal.** `App` in `src/js/app.js` keeps a store of records. Each record is a date plus the entries logged that day.
  - Adding an entry trims it and files it under today's UTC calendar day.
  - Every display pass drops records more than seven UTC days away from now.
  - The display gives each remaining entry an emphasis tier by its day distance, flattens the entries into items and shuffles them.
  - A double-click removes an item's text from the record of the item's tagged day.
- **The demo-data manager** (`src/js/populateData.js`). It merges a batch of entries into the store under a given day, clears the store and reports counts over it.
- **The daily checklist** (`src/js/checklist.js`). It holds a list of ticked items. A tick also feeds the journal.
- **The focus stopwatch** (`src/js/stopwatch.js`). It is a countdown state machine: start, pause, resume, stop, reset, duration change and the one-second tick. `formatTime` renders the countdown as MM:SS.

Time is an integer number of milliseconds since the epoch. A UTC calendar day is that number divided by 86 400 000, rounded down. The `YYYY-MM-DD` strings the source compares are a one-to-one rendering of that day number, so the model compares day numbers. The clock is a parameter `now` of each operation that reads it.

The modules follow the program's structure. `app.js` is spread over six of them (time, strings, sequence helpers, the record store, the display pass and the application class); each other source file has one:

| module | file | models |
|---|---|---|
| `UtcTime` | `utc_time.dfy` | `getDateStringFromUTC` and `getDaysDifference` |
| `JsString` | `js_string.dfy` | ECMAScript `String.prototype.trim` |
| `SeqUtil` | `seq_util.dfy` | `indexOf`, `splice(k, 1)` and `filter` on lists |
| `RecordStore` | `record_store.dfy` | the record store as a value, and the store effect of an add and of a removal |
| `Display` | `display.dfy` | pruning, tiers, flattening, shuffling, and the tag a displayed item carries |
| `Gratitude` | `app.dfy` | class `App`: a `records` field and the methods that update it in place |
| `Checklist` | `checklist.dfy` | class `ChecklistManager` over `checkedItems` |
| `PopulateData` | `populate.dfy` | class `PopulateDataManager` over the same store |
| `Stopwatch` | `stopwatch.dfy` | the `Watch` state, its step functions, class `StopwatchManager`, and `formatTime` |

The imperative code stays imperative in the model:

- Each class method updates its fields in place with the source's loops. Its postcondition ties the new state to a pure function of the old state.
- The lemmas prove what the source promises about those functions.
- The store is `gratitudeRecords` in `app.js`, modelled as `App.records`. `checklist.js` calls `app.addRecord`, and `populateData.js` uses `app.records` and `app.displayRecords`. The `App` of `app.js` defines none of these: they are calls written against another version of `App`. The model maps them onto `App.records`: `addRecord` is `AddGratitude`, and `displayRecords` is `DisplayGratitude`.

## Model

| member | source | states |
|---|---|---|
| UtcTime.UtcDay | src/js/app.js:113-121 | The calendar day of an instant is the whole number of days since the epoch that contains it: `d * 86400000 <= ts < (d + 1) * 86400000`. |
| UtcTime.UtcMidnight | src/js/app.js:130-131 | `Date.UTC` of an instant's own UTC date is the last multiple of a day at or before the instant (for years outside 0-99; see Left out). |
| UtcTime.DaysDifference | src/js/app.js:124-142 | The floor of the difference of the two UTC midnights, divided by a day, is exactly the distance between the two UTC day numbers. |
| UtcTime.DaysDifferenceSymmetric | src/js/app.js:124-142 | The day distance is symmetric. It is zero exactly when both instants fall on the same UTC day. |
| UtcTime.DaysDifferenceVersusElapsed | src/js/app.js:129-135 | The distance counts calendar days, not elapsed time. Instants under a day apart are at most one day apart, and exactly one when a UTC midnight lies between them. Instants a day or more apart are at least one day apart. |
| JsString.Trim | src/js/app.js:169 | `trim()` returns a contiguous piece of the input with only JS whitespace removed on both sides. The piece neither starts nor ends with whitespace. It is empty exactly when the input is all whitespace. |
| JsString.TrimIdempotent | src/js/app.js:169 | Trimming a trimmed text changes nothing. |
| SeqUtil.IndexOf | src/js/checklist.js:90 | `indexOf` returns -1 exactly when the value is absent. Otherwise it returns the first position holding the value. |
| SeqUtil.RemoveAt | src/js/checklist.js:92 | `splice(k, 1)` keeps the elements before `k` and shifts the rest down by one. The result's multiset is the input's minus one copy of the removed element. |
| SeqUtil.Without | src/js/app.js:213 | `filter(entry => entry !== text)` keeps exactly the elements other than `text`, each as often as before: the multiset loses exactly the copies of `text`. |
| SeqUtil.WithoutAppend | src/js/app.js:213 | The filter distributes over concatenation, so the kept entries keep their order. |
| RecordStore.FindDay | src/js/app.js:174 | The `find` by day string returns the first record on the given UTC day, or nothing when no record has that day. |
| RecordStore.FindOwnDay | src/js/app.js:174 | With one record per day, looking up a record's own day finds that record. |
| RecordStore.AddEntryRejectsBlank | src/js/app.js:169-170 | Input that is all whitespace leaves the store unchanged. |
| RecordStore.InsertEffect | src/js/app.js:172-184 | With one record per day, an add does one of two things. With no record for today, it pushes exactly `{date: now, entries: [text]}` at the end. Otherwise it appends the text to today's record and leaves every other record unchanged. |
| RecordStore.InsertKeepsOnePerDay | src/js/app.js:172-184 | An add keeps at most one record per UTC day. Afterwards today has a record, and its last entry is the added text. |
| RecordStore.SameDayAdds | src/js/app.js:172-184 | Successive adds, each reading the clock at its own instant of one UTC day that has no record, leave exactly one new record for that day. It is dated by the first add's instant and holds the texts in call order. |
| RecordStore.DropDateMembers | src/js/app.js:216 | `filter(item => item.date !== date)` keeps exactly the records with a different date. |
| RecordStore.DropDateSingle | src/js/app.js:216 | When only record `i` has the date, the filter removes exactly that record. |
| RecordStore.DropDateAppend | src/js/app.js:216 | The filter distributes over concatenation. |
| RecordStore.RemoveEntryEffect | src/js/app.js:209-217 | With no record for the day, removal changes nothing. Otherwise only the day's record changes. Its entries lose every copy of the text, and the record disappears when none are left. The one-record-per-day invariant is kept. |
| Display.Tier | src/js/app.js:43-54 | Day distance 0 gets the primary tier at 100%. Distances 1 to 7 get `100 - 10d` percent. Anything further falls to the default `opacity-0`. |
| Display.TierStrictlyDecreasing | src/js/app.js:43-54 | Within the seven-day window, a farther day always gets a fainter tier. |
| Display.Prune | src/js/app.js:30-40 | The records left after a display pass are exactly the records at most seven UTC days from now. |
| Display.PruneKeepsOnePerDay | src/js/app.js:30-40 | Pruning keeps the one-record-per-day invariant. |
| Display.KeepDropDate | src/js/app.js:37 | Filtering out one more stale date from the loop's current store is the same as counting it among the dates already met. |
| Display.KeepAllStaleMet | src/js/app.js:30-40 | Once the loop has met every stale date of its snapshot, the store it leaves is exactly the pruned store. |
| Display.FlattenLength | src/js/app.js:28-60 | There are exactly as many items as entries over all records. |
| Display.FlattenAt | src/js/app.js:28-60 | Entry `k` of record `i` is the item at position `EntryCount(rs[..i]) + k`. So every entry has its own item, in record and entry order. |
| Display.FlattenMember | src/js/app.js:28-60 | Every item comes from some entry of some record. |
| Display.FlattenEmpty | src/js/app.js:62-69 | The placeholder is shown exactly when no remaining record has an entry. |
| Display.DisplayedTiersVisible | src/js/app.js:36-54 | Every displayed item's day is at most seven UTC days from today. Its tier is the one for that distance, one of the eight visible ones (30% to 100%), never `opacity-0`. |
| Display.Shuffle | src/js/app.js:91-98 | Fisher-Yates on a copy returns a permutation of the input (same multiset), whatever swap index is chosen in `[0, i]`. |
| Display.FirstContaining | src/js/app.js:81 | The `find` on line 81 returns the first record, in store order, whose entries include the text. |
| Display.AsWrittenTagDefined | src/js/app.js:81 | For every displayed item the lookup on line 81 finds a record, so reading its `.date` cannot fail. |
| Display.AsWrittenTagMisdirects | src/js/app.js:81 | Counterexample: the same text on two consecutive days. The later day's item is tagged with the earlier day, so a double-click on it removes the earlier record instead. |
| Display.OwnTagTargetsOwnRecord | src/js/app.js:204-217 | With each item tagged by its own record's day, a double-click finds that record and removes the text from it. Every other record stays. |
| Gratitude.HandlersKeepOnePerDay | src/js/app.js:168-221 | Both handlers keep at most one record per day. After a non-blank add, today's record ends with the trimmed text. |
| Gratitude.App.constructor | src/js/app.js:2-24 | Loading the stored records and running the first display pass leaves exactly the pruned store. |
| Gratitude.App.CollectEntries | src/js/app.js:28-60 | The loop over a snapshot of the store filters out each stale record's date from the live store and collects the items of the fresh records. It leaves the pruned store, and the items collected are the flattening of that pruned store. |
| Gratitude.App.DisplayGratitude | src/js/app.js:26-88 | It leaves the pruned store. The view is the placeholder exactly when there are no items; otherwise it is a permutation of the flattened items of the pruned store. Each item is tagged with its own record's day (the corrected tag; see Findings). |
| Gratitude.App.VisitRecord | src/js/app.js:30-60 | For one record: a stale record's date is filtered out of the store and nothing is pushed. A fresh record pushes its items and leaves the store alone. |
| Gratitude.App.AddGratitude | src/js/app.js:168-193 | Blank input changes nothing. Otherwise the trimmed text is added as `InsertEffect` describes, and the display pass prunes. |
| Gratitude.App.RemoveOnDoubleClick | src/js/app.js:204-221 | With no record for the tagged day, nothing happens. Otherwise the removal of `RemoveEntryEffect` is applied, then the display pass. |
| Checklist.Check | src/js/checklist.js:65-67 | A tick appends a non-empty unticked item. The list changes exactly when the item is non-empty and not yet ticked. |
| Checklist.CheckIdempotent | src/js/checklist.js:66 | Ticking the same item twice is ticking it once. |
| Checklist.CheckKeepsNoDuplicates | src/js/checklist.js:66-67 | The list never holds an item twice. |
| Checklist.Uncheck | src/js/checklist.js:89-93 | Unticking removes the first occurrence of the text and keeps the rest in order. An absent text changes nothing. |
| Checklist.UncheckEffect | src/js/checklist.js:89-93 | On a duplicate-free list, unticking removes the text entirely and keeps every other item. |
| Checklist.UncheckKeepsNoDuplicates | src/js/checklist.js:89-93 | Unticking keeps the list duplicate-free. |
| Checklist.CheckThenUncheck | src/js/checklist.js:65-96 | Ticking an unticked item and then unticking it restores the list. |
| Checklist.UncheckChanges | src/js/checklist.js:89-96 | The `indexOf > -1` guard: unticking changes the list exactly when the text is in it. |
| Checklist.ChecklistManager.IsChecked | src/js/checklist.js:74-76 | `isChecked` holds exactly when an untick of the item would change the list; for a non-empty item, exactly when a tick would leave the list as it is. |
| Checklist.ChecklistManager.HandleCheck | src/js/checklist.js:65-72 | A non-empty unticked item is appended and forwarded once to the journal's add. Otherwise neither the list nor the store changes. |
| Checklist.ChecklistManager.UncheckItem | src/js/checklist.js:89-96 | The list becomes `Uncheck` of the old list. |
| PopulateData.Merge | src/js/populateData.js:66-70 | The existing entries stay as a prefix. The result holds exactly the existing and the batch entries. No appended entry was already present when it was pushed. |
| PopulateData.MergeKeepsNoDuplicates | src/js/populateData.js:66-70 | Merging into a duplicate-free list keeps it duplicate-free. |
| PopulateData.MergeKeepsBatchOrder | src/js/populateData.js:66-70 | Appended entries come in the order of their first occurrence in the batch. |
| PopulateData.MergeIntoStoreEffect | src/js/populateData.js:55-78 | With one record per day, a new day pushes exactly one record holding the batch and changes nothing else. Otherwise only that day's record is extended. The invariant is kept, and the day's record then holds every batch entry. |
| PopulateData.MergeIntoStoreCounts | src/js/populateData.js:55-78 | The entry total grows by at most the batch size, and by exactly the batch size for a new day. |
| PopulateData.MinDate | src/js/populateData.js:95 | `Math.min` over the dates is a date of the store and no later than any of them. |
| PopulateData.MaxDate | src/js/populateData.js:96 | `Math.max` over the dates is a date of the store and no earlier than any of them. |
| PopulateData.PopulateDataManager.AddEntriesForDate | src/js/populateData.js:55-78 | The store becomes `MergeIntoStore` of the old store. The in-place loop pushes onto the found record's entries. |
| PopulateData.PopulateDataManager.ClearDemoData | src/js/populateData.js:49-53 | The store is left empty. |
| PopulateData.PopulateDataManager.GetDemoInfo | src/js/populateData.js:90-99 | `totalRecords` is the store length. `totalEntries` is the sum of the entry counts. The range is absent exactly for an empty store; otherwise oldest <= newest are the least and greatest dates present. |
| PopulateData.PopulateDataManager.HasDemoData | src/js/populateData.js:86-88 | True exactly when `getDemoInfo` reports a date range and a positive record count. |
| Stopwatch.StartEffect | src/js/stopwatch.js:45-83 | Start changes the state exactly when the start button is enabled, and then only sets `isRunning`. Resume is exactly start. |
| Stopwatch.PauseEffect | src/js/stopwatch.js:68-87 | Pause and stop leave the watch stopped with the countdown and duration unchanged. They change state exactly when the stop button is enabled. Pausing twice is pausing once. |
| Stopwatch.ResetEffect | src/js/stopwatch.js:89-93 | Reset leaves the watch stopped with `timeLeft == duration * 60`, and is idempotent. |
| Stopwatch.DurationChangeEffect | src/js/stopwatch.js:216-220 | An input of 1 to 120 minutes becomes the duration and rewinds the stopped watch to it. NaN or any other value changes nothing. |
| Stopwatch.StartClickToggles | src/js/stopwatch.js:198-204 | The start button pauses a running watch and starts a stopped one with time left. Reset is enabled exactly when stop is not. |
| Stopwatch.InitialValid | src/js/stopwatch.js:3-37 | The watch built from a setting in range, or from none, starts stopped at its full duration and valid. A missing or zero setting means 5 minutes. |
| Stopwatch.StepsKeepValid | src/js/stopwatch.js:45-99 | Every step keeps `1 <= duration <= 120`, `0 <= timeLeft <= duration * 60`, and running implying time left. |
| Stopwatch.TickEffect | src/js/stopwatch.js:50-55 | A tick takes one second off. The watch stops exactly when the countdown reaches zero. |
| Stopwatch.Countdown | src/js/stopwatch.js:50-64 | A running countdown of `t` seconds keeps running for its first `t - 1` ticks and is stopped at zero after exactly `t` ticks. |
| Stopwatch.NatToString | src/js/stopwatch.js:113 | `toString()` of a non-negative integer gives its decimal digits with no leading zero (for integers below 2^53; see Left out). |
| Stopwatch.PadStart2 | src/js/stopwatch.js:113 | `padStart(2, '0')` leaves two or more characters alone. Otherwise it prefixes zeros up to two characters. |
| Stopwatch.JsRem | src/js/stopwatch.js:112 | JavaScript `%`: the remainder of division truncated toward zero. It is the usual remainder for a non-negative dividend; for a negative dividend it is the non-positive remainder left by the quotient rounded toward zero. |
| Stopwatch.FormatTimeRoundTrip | src/js/stopwatch.js:110-114 | For a non-negative count, `formatTime` gives a minutes field of at least two digits, a colon, and a seconds field of exactly two digits. Reading it back gives the count. |
| Stopwatch.StopwatchManager.constructor | src/js/stopwatch.js:3-37 | The duration comes from the loaded setting, and `init`'s reset follows. |
| Stopwatch.StopwatchManager.StartTimer | src/js/stopwatch.js:45-66 | The fields become `StartStep` of the old state. |
| Stopwatch.StopwatchManager.Tick | src/js/stopwatch.js:50-64 | The interval body: one second less, and stop at zero. |
| Stopwatch.StopwatchManager.PauseTimer | src/js/stopwatch.js:68-77 | The fields become `PauseStep` of the old state. |
| Stopwatch.StopwatchManager.ResumeTimer | src/js/stopwatch.js:79-83 | The fields become `ResumeStep` of the old state. |
| Stopwatch.StopwatchManager.StopTimer | src/js/stopwatch.js:85-87 | Stopping is pausing. |
| Stopwatch.StopwatchManager.ResetTimer | src/js/stopwatch.js:89-93 | The fields become `ResetStep` of the old state. |
| Stopwatch.StopwatchManager.SetDuration | src/js/stopwatch.js:95-99 | The duration is set, then the watch resets. |
| Stopwatch.StopwatchManager.OnDurationChange | src/js/stopwatch.js:216-220 | Only 1 to 120 minutes reach `SetDuration`. |
| Stopwatch.StopwatchManager.OnStartClick | src/js/stopwatch.js:198-204 | A running watch is paused; any other is started. |

## Left out

- Persistence. The model leaves out `localStorage` and `JSON.parse`/`JSON.stringify`. The stored store, the stored checklist and the duration setting are constructor parameters, and every save is dropped. A malformed stored value makes `JSON.parse` throw in the constructors; the model does not represent that.
- Rendering. The model leaves out the DOM: list items, class strings, button styling, the placeholder markup and the `tagName !== 'LI'` check. The model keeps the data handed to the page: the `View`, the item tags, and the button enabling predicates `CanStart`, `CanStop` and `CanReset`.
- `Math.random`. The shuffle's swap index is an arbitrary choice in `[0, i]`. `applyRandomRotation` is cosmetic and is left out.
- Dates. Timestamps are integer milliseconds. The model leaves out ISO-string parsing, invalid dates (`NaN`) and the `try`/`catch` fallbacks around them. It also leaves out `displayDateInUserTimezone` (`Intl` display) and the local-time `getDateOffset` of the demo data. `Date.UTC` maps a year argument from 0 to 99 to 1900 plus that year. The model leaves that out: `UtcMidnight` is the true UTC midnight for every instant, so for records dated in years 0-99 it differs from the source. The app's own clock never produces such dates.
- The clock. `now` is one instant per operation. The source reads the clock once per record during a display pass, so a pass that straddles midnight could see two different days. `addGratitude` also reads it twice: once for `today` (`src/js/app.js:172`) and once for the pushed record's `date` (`src/js/app.js:177`). An add that straddles UTC midnight therefore dates the new record on the next day. The model uses one instant for both.
- Demo data. The model leaves out `populateDemoData` and its fixed sample entries. `AddEntriesForDate` is modelled for any date and batch. Demo records store `date.toISOString()`, and the model stores the same instant as a number.
- Timers and audio. `setInterval` is the explicit `Tick` method. `setTimeout`'s delayed auto-reset is a later call of `ResetTimer`. The completion message and sound are left out.
- The checklist's per-day storage key. The `checklist_YYYY-MM-DD` key is left out: the model holds the list for one day.
- Gratitude.App.DisplayGratitude: the view's items carry the day of their own record, the corrected tag. The source tags each item with the day of the first pruned record whose entries include its text (`src/js/app.js:81`). `Display.AsWrittenTag` models that tag, and `Display.AsWrittenTagMisdirects` shows where the two differ; see Findings.
- Stopwatch.FormatTimeRoundTrip: the round trip is stated only for non-negative counts. `FormatTime` itself follows the source for negative counts too (floor division, truncating `%`, a minus sign in `toString`), which happens only with a negative duration setting.
- Stopwatch.InitialValid: the stored duration setting is not range-checked by the source. So validity is proved only for a missing setting or one in 0..120.
- Numbers. JavaScript numbers are doubles, and the model's integers are exact. `toString()` switches to exponent form from 1e21, and `Math.floor` and `%` act on rounded values above 2^53. So `NatToString` and `FormatTimeRoundTrip` match the source for counts below 2^53. Larger counts arise only from an out-of-range stored duration setting.
- Three behaviours of the code worth noting, which the model follows:
  - A double-click removes every entry equal to the item's text, not just one.
  - An add appends to every record on today's day.
  - A malformed stored store throws.

## Findings

| source | as written | input that shows it | evidently intended | confidence | as-written member | corrected member |
|---|---|---|---|---|---|---|
| src/js/app.js:81 | Each displayed item is tagged with the day of the first record, in store order, whose entries include the item's text. | The store `[{day 0: ["a"]}, {day 1: ["a"]}]` at day 1. Double-click the item from day 1: it is tagged day 0, so the day-0 record loses "a" and is dropped, while day 1 keeps "a". | Tag each item with the day of the record it came from, so a double-click removes the text from that record. | high (not executed) | Display.AsWrittenTagMisdirects | Display.OwnTagTargetsOwnRecord |
