# Advent of Code 2018, days 1 to 4, in Dafny

A Dafny model of the puzzle logic in four Rust test modules. Each module below matches one source file:

- `Frequency` (`frequency.dfy`, from `src/day_1.rs`). A device starts at frequency 0 and applies a list of changes. Part 1 sums the list. Part 2 cycles the list forever and stops at the first running frequency seen twice. The source writes part 2 twice: as a `for` loop over a `HashSet` and as a `scan`/`find` iterator chain. Both are modelled, and both are proved to find the unique first repeat of the running-sum stream.
- `BoxIds` (`box_ids.dfy`, from `src/day_2.rs`). `count_duplicates` builds a letter-frequency table and reports whether some letter occurs exactly twice or exactly three times. The checksum multiplies the two flag counts. `diff_by` lists the positions where two strings differ over their zipped prefix. The pairwise search finds two IDs that differ in exactly one position and removes that letter.
- `Fabric` (`fabric.dfy`, from `src/day_3.rs`). Claims are rectangles. Their extent is listed row-major. The board is a grid of cells, and each cell lists the claims covering it. Queries:
  - the number of cells covered more than once;
  - whether a claim is alone in every cell it covers;
  - the claims that overlap nothing.
- `GuardLog` (`guard_log.dfy`, from `src/day_4.rs`). A log of `Begins(id)`, `FallsAsleep` and `WakesUp` events is replayed into a ledger: a map from guard id to the guard's sleep spans. Queries:
  - total minutes asleep;
  - the minute of the hour covered by the most spans.
- `Wrappers` (`wrappers.dfy`) holds the `Option` type that the source's `Option` results map to.

Timestamps are modelled as whole minutes, so a duration is `stop - start` and `.minute()` is `t % 60`. The casts `as u64` and `as u32` of a duration are written out as reduction modulo 2^64 and 2^32, so a negative duration wraps as it does in Rust.

`HashMap` and `HashSet` iteration order is not specified. Loops over a map pick an arbitrary remaining key. Their contracts hold for every order, including `max_by_key` returning some maximal entry.

Part 2 of day 1 may run forever. Both versions take a `fuel` bound on the number of changes consumed.

Several contracts are stated against an independent reference definition. Lemmas connect the two:
- `Sum`, `Drift` and `IsFirstRepeat` for day 1;
- `SomeLetterOccurs`, `MismatchSet` and `RemoveAt` for day 2;
- `InClaim`, `Covering`, `Contested` and `Disjoint` for day 3;
- `Coverage`, `BeginIds` and `SleepLog` for day 4.

## Model

| member | source | states |
|---|---|---|
| Frequency.SumFrequency | src/day_1.rs:11-19 | The part-1 result is the sum of all changes, the left-to-right fold `Sum`. |
| Frequency.SumAppend | src/day_1.rs:16 | Summing two lists one after the other gives the sum of both sums. |
| Frequency.DriftIsPrefixSum | src/day_1.rs:31-32 | During the first pass over the cycled list, the running frequency after `k` changes is the sum of the first `k` changes. |
| Frequency.DriftFullCycle | src/day_1.rs:31-32 | Consuming one more full pass of the cycled list moves the running frequency by exactly the part-1 sum. |
| Frequency.FirstRepeatUnique | src/day_1.rs:26-37 | The first repeated running frequency (0 counted as seen) is unique: two first repeats are the same step. |
| Frequency.ScanFromFindsFirstRepeat | src/day_1.rs:52-59 | From any state where `seen` holds exactly the running sums so far, all of them distinct, the `scan`/`find` chain returns the frequency of the first repeat if it comes within the fuel. When it returns nothing, the running sums stay pairwise distinct for the whole fuel. |
| Frequency.ScanFindIsFirstRepeat | src/day_1.rs:47-59 | If step `s` is the first repeat, the iterator version returns `Some` exactly when `s` is within the fuel, and the value is the running frequency at `s`. |
| Frequency.ScanFrom | src/day_1.rs:52-59 | Specified by `ScanFromFindsFirstRepeat` and `ScanStep`: from a state in step with the running sums, it returns the first repeated frequency within the fuel, or `None` when the running sums stay distinct. |
| Frequency.ScanFind | src/day_1.rs:47-59 | Specified by `ScanFindIsFirstRepeat` on a non-empty list: with 0 seen first, `Some` exactly when the first repeat comes within the fuel, holding that step's frequency. On an empty list it is `None`, which `FirstRepeatLoop` states next to the loop's answer of 0. |
| Frequency.ScanStep | src/day_1.rs:31-35 | One step of either version: the next running frequency is the previous one plus the cycled change. If it was seen, this step is the first repeat and the search stops with it. Otherwise the running sums stay distinct one step further and the seen set grows by exactly that frequency. |
| Frequency.FirstRepeatLoop | src/day_1.rs:26-37 | The loop version finishes with 0 on empty input, where the iterator version (src/day_1.rs:52-59) finds nothing. When it stops, the step is the first repeat: earlier running sums, 0 included, are pairwise distinct and the last one was seen before. When the fuel runs out, every running sum so far is distinct. On non-empty input it agrees with the iterator version. |
| Frequency.DriftOfOne | src/day_1.rs:31-32 | With the single change +1, the running frequency after `k` changes is `k`. |
| Frequency.NeverRepeats | src/day_1.rs:31-37 | The input `[+1]` has no first repeat at any step, so the search need not terminate. |
| BoxIds.CountDuplicates | src/day_2.rs:12-35 | `has_two` holds iff some letter occurs exactly twice in the ID, and `has_three` iff some letter occurs exactly three times, whatever order the table is walked in and despite the early `break`. |
| BoxIds.CountsWitness | src/day_2.rs:15-18 | A complete letter-frequency table contains the count `n` iff some letter of the ID occurs `n` times. |
| BoxIds.TallyCounts | src/day_2.rs:43-55 | The checksum fold's two counters equal the number of IDs with the two-flag and with the three-flag. |
| BoxIds.Tally | src/day_2.rs:43-55 | Specified by `TallyCounts`: the two counters are the numbers of IDs with the two-flag and with the three-flag. |
| BoxIds.Checksum | src/day_2.rs:37-58 | The checksum is (IDs with a letter occurring exactly twice) × (IDs with a letter occurring exactly three times). |
| BoxIds.Mismatches | src/day_2.rs:70-75 | The collected positions are exactly the positions below the bound where the strings differ, in increasing order. |
| BoxIds.MismatchesCounted | src/day_2.rs:70-76 | The number of collected positions equals the number of differing positions. |
| BoxIds.DiffBy | src/day_2.rs:69-81 | Returns `Some(i)` iff the strings differ at exactly `count` positions of the zipped prefix. Then `i` is a differing position and the strings agree before it, so `i` is the smallest one. It requires that `count` is not 0 while the strings agree everywhere. |
| BoxIds.DiffByIdentical | src/day_2.rs:85-86 | `diff_by(1, "abc", "abc")` is `None`. |
| BoxIds.DiffByOnePosition | src/day_2.rs:87-88 | `diff_by(1, "adc", "abc")` is `Some(1)`. |
| BoxIds.DiffByEverywhere | src/day_2.rs:89-90 | `diff_by(1, "abc", "def")` is `None`. |
| BoxIds.RemoveAt | src/day_2.rs:106-107 | Removing position `p` yields a string one shorter that keeps the letters before `p` and shifts the later ones down by one. |
| BoxIds.CommonLetters | src/day_2.rs:105-108 | For equally long IDs that differ in exactly one position, removing that position from either gives the same string. |
| BoxIds.FindCorrectIds | src/day_2.rs:98-115 | The search never pairs an ID with itself. On success it returns the first ID of the first pair, in scan order, that differs in one position, with that letter removed and one letter shorter. The result also equals the second ID with the letter removed when the lengths match. Every earlier pair differs in a number of positions other than one. `None` means no pair qualifies. |
| Fabric.MaxExtentBoundsClaim | src/day_3.rs:18-20 | Every cell of a claim lies below and left of its maximal extent `(left+width, top+height)`, and a non-empty claim reaches it. |
| Fabric.MaxExtent | src/day_3.rs:18-20 | Specified by `MaxExtentBoundsClaim`: the exclusive bottom-right corner `(left+width, top+height)`, which bounds every cell of the claim and is reached by a non-empty claim. |
| Fabric.Range | src/day_3.rs:22-28 | The range `lo..hi` lists `lo, lo+1, …` and has `hi-lo` elements, or none when `hi <= lo`. |
| Fabric.HorizontalExtent | src/day_3.rs:22-24 | The columns of a claim: `width` of them, exactly those from `left` up to but excluding `left+width`. |
| Fabric.VerticalExtent | src/day_3.rs:26-28 | The rows of a claim: `height` of them, exactly those from `top` up to but excluding `top+height`. |
| Fabric.ExtentOfSpec | src/day_3.rs:30-38 | The nested row/column loop lists every pair of a listed row and a listed column, row-major, with one entry per row-column pair. |
| Fabric.Extent | src/day_3.rs:30-38 | A claim's extent has `width*height` cells, contains exactly the cells inside the rectangle, is row-major and has no duplicates. |
| Fabric.ThreeByThreeExtent | src/day_3.rs:106-117 | A 3×3 claim has 9 cells in its extent. |
| Fabric.NewBoard | src/day_3.rs:48-52 | `Board::new(w, h)` has `w` outer rows of `h` cells each, and every cell is empty. |
| Fabric.FitsSameShape | src/day_3.rs:54-59 | Whether a claim's extent is in bounds depends only on the board's shape. |
| Fabric.Add | src/day_3.rs:54-59 | It requires every extent cell to be a valid `inner[row][col]` index. Afterwards the board has the same shape, each cell in the claim gains the claim at its end, and every other cell is unchanged. |
| Fabric.Covering | src/day_3.rs:149-152 | The claims covering a cell: only claims that cover it, each as often as the input lists it. |
| Fabric.CoveringAppend | src/day_3.rs:149-152 | Covering keeps input order: for a list split in two, the claims of the first part come before those of the second. |
| Fabric.MaxHorizontal | src/day_3.rs:144-146 | The largest horizontal extent: no claim's is larger, and some claim's equals it. It requires at least one claim because of the `unwrap`. |
| Fabric.MaxVertical | src/day_3.rs:144-147 | The largest vertical extent: no claim's is larger, and some claim's equals it. |
| Fabric.BoardAsWritten | src/day_3.rs:148 | The board as the tests size it: `max_horizontal+1` rows of `max_vertical+1` cells, all empty. |
| Fabric.BoardAsWrittenTooShort | src/day_3.rs:148 | The board as the tests size it does not fit the single claim `#1 @ 0,0: 1x3`. |
| Fabric.SizedBoard | src/day_3.rs:148 | With the outer size from the vertical extent, every input claim fits and every cell is empty. |
| Fabric.BuildOn | src/day_3.rs:149-152 | Adding every claim in order to an empty board that each claim fits leaves the board's shape unchanged. Each cell then holds exactly the claims covering it, in input order. |
| Fabric.BuildAsWritten | src/day_3.rs:144-152 | The tests' own construction, on inputs where every claim fits the board sized as written: each cell holds exactly the claims covering it, in input order, and there are `max_horizontal+1` rows. |
| Fabric.BuildBoard | src/day_3.rs:144-152 | The corrected construction: each cell holds exactly the claims covering it, in input order. Every claim fits, and there are `max_vertical + 1` rows. |
| Fabric.RowConflicts | src/day_3.rs:63-72 | The inner fold counts no more conflicts than the cells it visits. |
| Fabric.AllCells | src/day_3.rs:61-74 | The set of all board cells is exactly the in-bounds coordinates. |
| Fabric.RowConflictsCounted | src/day_3.rs:63-72 | The inner fold over a row equals the number of that row's cells holding more than one claim. |
| Fabric.ConflictsCounted | src/day_3.rs:61-74 | The outer fold over the first `m` rows equals the number of their cells holding more than one claim. |
| Fabric.Conflicts | src/day_3.rs:61-74 | Specified by `ConflictsCounted`: the outer fold over the first `m` rows counts their cells holding more than one claim. |
| Fabric.TotalConflictsCounted | src/day_3.rs:61-74 | `find_total_conflicts` equals the number of cells holding more than one claim. |
| Fabric.FindTotalConflicts | src/day_3.rs:61-74 | Specified by `TotalConflictsCounted`: the number of cells holding more than one claim. |
| Fabric.ConflictsAtMostCells | src/day_3.rs:61-74 | The conflict count never exceeds the number of cells. |
| Fabric.FreshBoardHasNoConflicts | src/day_3.rs:48-52 | A new board has no conflicts. |
| Fabric.BuiltConflicts | src/day_3.rs:149-153 | On a board built from a list of claims, the conflicts are the cells that two or more listed claims cover. |
| Fabric.SoleOccupant | src/day_3.rs:77-82 | `has_no_conflicts(c)` holds iff every cell of `c`'s rectangle holds exactly one entry, equal to `c`. |
| Fabric.HasNoConflicts | src/day_3.rs:77-82 | Specified by `SoleOccupant` and, on a built board, `NoConflictsIffDisjoint`: every cell of the claim holds that claim alone. |
| Fabric.SoleClaim | src/day_3.rs:58 | A cell's list is exactly `[c]` iff `c` is listed once and no other listed claim covers that cell. |
| Fabric.NoConflictsIffDisjoint | src/day_3.rs:77-82 | On a built board, a listed claim has no conflicts iff no other listed claim shares a cell with it and, unless it is empty, it is listed once. |
| Fabric.BuiltSolesFit | src/day_3.rs:89-92 | On a built board, any claim alone in some cell fits the board, so `has_no_conflicts` can be asked of it without going out of bounds. |
| Fabric.ScanRow | src/day_3.rs:88-99 | The inner loop adds at most one claim. A claim it adds is the only entry of a cell of this very row, has no conflicts and was not collected before. |
| Fabric.ScanRows | src/day_3.rs:87-101 | The outer loop keeps what was collected and adds claims one per row: each added claim sits alone in a cell of its own row, in strictly increasing row order from row `r` on. The collected claims stay distinct and conflict-free. |
| Fabric.FindNonOverlappingClaims | src/day_3.rs:84-103 | Every returned claim is the only entry of some cell of the board, as `col[0]` of a one-entry cell is, and has no conflicts. No claim is returned twice. Because `break` leaves only the current row, the claims can be matched to strictly increasing rows, each claim sitting alone in a cell of its row, so two claims never come from one row and there are at most as many claims as rows. The result is empty exactly when no cell holds a single conflict-free claim; otherwise its first claim, the one `.first()` reads, sits alone in the first such cell in row-major order. |
| Fabric.ScanRowFinds | src/day_3.rs:88-96 | A row with a cell holding only a conflict-free claim `c`, at or after the starting column, makes the inner loop add exactly one claim when `c` was not collected before; in any case the result is non-empty. |
| Fabric.ScanRowsFinds | src/day_3.rs:87-101 | A non-empty conflict-free claim `c` whose top row is still to be scanned makes the search grow the collection when `c` was not collected before; in any case the result is non-empty. |
| Fabric.ScanRowEmpty | src/day_3.rs:88-99 | Starting with nothing collected, the inner loop over a row from column `j` comes back empty exactly when no cell from `j` on holds a single conflict-free claim. |
| Fabric.ScanRowLeads | src/day_3.rs:88-99 | Otherwise it collects exactly the claim of the first such cell from `j` on. |
| Fabric.ScanRowsEmpty | src/day_3.rs:87-100 | Starting with nothing collected, the scan from row `r` comes back empty exactly when no cell from row `r` on is eligible. |
| Fabric.ScanRowsLeads | src/day_3.rs:87-100 | Otherwise its first claim sits alone in the first eligible cell, in row-major order, from row `r` on. |
| Fabric.ScansFromTheFirst | src/day_3.rs:84-103 | The whole search is empty exactly when no cell is eligible, and otherwise starts with the claim of the first eligible cell. |
| Fabric.FindsSomeClaim | src/day_3.rs:84-103 | If some non-empty claim that fits has no conflicts, the result is non-empty. |
| Fabric.OnePerRowFrom | src/day_3.rs:87-101 | Claims matched to increasing rows from some row on are also matched to increasing rows from any earlier row on. |
| Fabric.OnePerRowCons | src/day_3.rs:88-96 | A claim alone in row `r`, put before claims matched to rows after `r`, gives claims matched to increasing rows from `r` on: the step of the outer loop after the `break`. |
| Fabric.FoundAreListedAndDisjoint | src/day_3.rs:84-103 | On a board built from a list of claims, every returned claim is in the list, listed once, and shares no cell with any other listed claim. |
| Fabric.ThreeClaimsScenario | src/day_3.rs:84-103 | For claims `#1 @ 1,3: 4x4`, `#2 @ 3,1: 4x4` and `#3 @ 5,5: 2x2` on a board built from them, four cells are contested and the search returns `#3` and nothing else. |
| Fabric.ScenarioConflicts | src/day_3.rs:61-74 | On the board of the same three claims, `find_total_conflicts` counts 4. |
| Fabric.ScenarioCell | src/day_3.rs:56-59 | On the board of the same three claims, a cell is covered twice exactly when it lies in rows 3-4 and columns 3-4, where `#1` and `#2` overlap. |
| Fabric.ScenarioOnlyThirdDisjoint | src/day_3.rs:77-82 | Of the three claims, only `#3` shares no cell with another. |
| GuardLog.SumMinutesAppend | src/day_4.rs:27-35 | The total over two span lists recorded one after the other is the sum of their totals. |
| GuardLog.SumMinutesPermutation | src/day_4.rs:27-35 | The total minutes asleep do not depend on the order of the spans. |
| GuardLog.TotalOfOrderedSpans | src/day_4.rs:27-35 | When every span ends at or after its start, and within 2^64 minutes, the total is the plain sum of `end - start`. |
| GuardLog.Minutes64 | src/day_4.rs:31-32 | The `as u64` cast of a duration: below 2^64, the duration itself when it is in range, and the duration plus 2^64 when it is negative by at most 2^64. |
| GuardLog.Minutes32 | src/day_4.rs:51-52 | The `as u32` cast of a duration: below 2^32, the duration itself when it is in range, and the duration plus 2^32 when it is negative by at most 2^32. |
| GuardLog.SumMinutes | src/day_4.rs:28-34 | Specified by `SumMinutesAppend`, `SumMinutesPermutation` and `TotalOfOrderedSpans`: additive over concatenation, independent of order, and the plain sum of durations when none wraps. |
| GuardLog.TotalMinutesAsleep | src/day_4.rs:27-35 | Specified by `SumMinutesPermutation`, `TotalOfOrderedSpans` and `AddSleep`: the order-independent total of the guard's span lengths, which grows by each added span's length. |
| GuardLog.AddSleep | src/day_4.rs:37-39 | Appends exactly one span at the end. The id and the earlier spans are unchanged, and the total grows by that span's length. |
| GuardLog.AddSleepRecord | src/day_4.rs:41-45 | Appends the given spans, in order, after the existing ones. The id is unchanged, and the total grows by the spans' total. |
| GuardLog.CoveredMinute | src/day_4.rs:49-57 | A span of positive length covers its starting minute of the hour. |
| GuardLog.MinuteCounts | src/day_4.rs:48-57 | The counter has an entry for exactly the covered minutes, each holding the number of spans whose range `[start%60, start%60+len)` contains it. |
| GuardLog.MaxByCount | src/day_4.rs:58 | `max_by_key` over a non-empty counter returns an entry whose count is at least every other count. |
| GuardLog.SleepiestMinute | src/day_4.rs:47-60 | Returns a covered minute whose coverage is maximal over all minutes. It requires some span of positive length because of the `unwrap`. |
| GuardLog.MostFrequentMinuteAsleep | src/day_4.rs:63-80 | `None` iff the guard has no spans. Otherwise `(m, c)` where `c` is the positive number of spans covering `m` and no minute is covered more often. |
| GuardLog.Flush | src/day_4.rs:144-156 | Merging the guard on shift into the ledger adds its id, extends an existing entry by this shift's spans or inserts the guard, and leaves every other entry alone. |
| GuardLog.ReplayPrefix | src/day_4.rs:141-170 | After any prefix of the log, a guard is on shift iff some `Begins` occurred, its id is the last `Begins`' id, and the sleep start is the time of the last `FallsAsleep`. It is never cleared, not even by a new shift. |
| GuardLog.Step | src/day_4.rs:141-169 | Specified by `ReplayPrefix` and `ReplayReflects`: one event of the replay, which keeps the guard on shift, the sleep start and the ledger in step with the log. |
| GuardLog.Settle | src/day_4.rs:172-184 | Specified by `ReplayReflects`: merging the guard on shift into the ledger gives one entry per guard seen, holding exactly that guard's sleeps. |
| GuardLog.NoShiftNoSleep | src/day_4.rs:162-168 | A guard that never began a shift has no recorded sleep. |
| GuardLog.LastBeginSeen | src/day_4.rs:143-157 | The guard on shift is among the guards that began a shift. |
| GuardLog.ReplayReflects | src/day_4.rs:141-184 | After every prefix, the ledger with the guard on shift merged in has one entry per guard that began a shift, under its own id, holding exactly that guard's sleeps so far. |
| GuardLog.BeginsReflects | src/day_4.rs:143-158 | A `Begins` event keeps the ledger in step with the log. |
| GuardLog.FallsAsleepReflects | src/day_4.rs:159-161 | A `FallsAsleep` event keeps the ledger in step with the log. |
| GuardLog.WakesUpReflects | src/day_4.rs:162-168 | A `WakesUp` event keeps the ledger in step with the log, including one before any shift, which is dropped. |
| GuardLog.WakeStepReflects | src/day_4.rs:163-166 | Closing a sleep of the guard on shift adds that span to that guard's entry only. |
| GuardLog.ReplayWake | src/day_4.rs:162-166 | After a `WakesUp` during a shift, the merged ledger is the previous ledger merged with the guard on shift, extended by one span from the last sleep start to the wake-up time. |
| GuardLog.SleepTableSpec | src/day_4.rs:136-186 | The ledger's keys are exactly the ids in `Begins` events, and each maps to a guard with that id. Its spans are, in log order, one span per `WakesUp` during that guard's shifts, running from the last `FallsAsleep` before it. |
| GuardLog.BuildSleepTable | src/day_4.rs:136-186 | Specified by `SleepTableSpec`: one entry per guard that began a shift, under its own id, listing that guard's sleeps in log order. |
| GuardLog.TwoNapsScenario | src/day_4.rs:136-186 | Guard #10 begins at 00:00 and sleeps 00:05-00:25 and 00:30-00:55: the ledger holds exactly that guard with both spans in log order, and `total_minutes_asleep` is 45. |
| GuardLog.RepeatedWakeReusesStart | src/day_4.rs:159-166 | Two `WakesUp` after one `FallsAsleep` record two spans with the same start. |
| GuardLog.WakeBeforeShiftDropped | src/day_4.rs:162-168 | A `WakesUp` before any `Begins` leaves no trace in the ledger. |
| GuardLog.SleepiestGuard | src/day_4.rs:196-199 | Picks a guard whose total minutes asleep are at least every other guard's. |
| GuardLog.MostFrequentMinuteOverall | src/day_4.rs:212-222 | Picks a guard that slept, its most frequent minute and that minute's count. No guard covers any minute more often. It requires some guard with spans because of the `unwrap`. |

## Left out

- Input loading and parsing (`load_and_parse_input`, `parse_frequency`, `parse_entry`, `parse_event`, `EventType::from_str`) are file I/O and wrappers around regex and integer parsing. The model starts from the parsed values.
- chrono `DateTime` is replaced by an integer count of minutes. Calendar arithmetic is not modelled.
- The hard-coded expected answers depend on input files that are not part of this model.
- Sorting the events by time before the replay is not modelled. The replay takes the events in the order given, which is what `build_sleep_table` does.
- Which entry `max_by_key` returns among equal counts depends on `HashMap` order. The model states only that the entry is maximal.
- Frequency.SumFrequency: the `i64` sum and running frequency are unbounded integers, so overflow panics are not modelled.
- Frequency.FirstRepeatLoop: the search runs for at most `fuel` changes. Behaviour beyond the fuel, including the non-terminating case, is described only by `NeverRepeats`.
- BoxIds.Checksum: the counters and their product are unbounded, so overflow is not modelled.
- BoxIds.FindCorrectIds: IDs are sequences of characters. `String::remove` takes a byte index, so the model matches the source only for ASCII IDs.
- Fabric.Extent: `u64` coordinates and the `as usize` casts are unbounded naturals, so overflow of `left + width` is not modelled.
- GuardLog.AddSleep: the `u64` sum in `total_minutes_asleep` is unbounded, so overflow of the total is not modelled. A single duration does wrap, as `as u64` does.
- GuardLog.MinuteCounts: `start_minute + minutes_duration` is unbounded, so a `u32` overflow panic is not modelled.
- The tests of days 3 and 4 are not compiled as the crate stands, because only `day_1` and `day_2` are declared as modules in `src/lib.rs:5-6`. Their logic is modelled as written.
- Fabric.BuildAsWritten: it requires every claim to fit the board sized as written. On other inputs the tests' construction panics in `add`, as `BoardAsWrittenTooShort` shows.
- The comment in `find_non_overlapping_claims` suggests deleting the `break` to find every claim. That variant is not modelled. The model follows the code, which leaves a row after its first find.

## Findings

| source | as written | input that shows it | evidently intended | confidence | as-written member | corrected member |
|---|---|---|---|---|---|---|
| src/day_3.rs:148 | `Board::new(max_horizontal + 1, max_vertical + 1)` makes `max_horizontal + 1` outer vectors. `add` (line 58) indexes the outer vector by row, so the vertical extent must size it. | The single claim `#1 @ 0,0: 1x3`: its row 2 is outside the 2 outer vectors, and `add` panics. | Size the outer vector by `max_vertical + 1` and each row by `max_horizontal + 1`, so that every claim fits. | not executed | Fabric.BoardAsWrittenTooShort | Fabric.SizedBoard |
