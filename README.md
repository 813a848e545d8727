# Directory-watch registry of the hss file monitor

The Windows monitor of hss (`monitor/windows/monitor.c`) keeps a fixed table of at most
32 change-notification handles. Each slot holds a handle, the directory it watches (at
most 127 characters) and one bit of a mark bitmap. `watch(entries, filters)` is given a
list of entries, each a primary file followed by the files it depends on. It works in
two halves:

- **Synchronising.** It clears every mark, derives the directory of every non-empty path
  of every entry before the first null one, and adds it. An add either marks the slot
  already watching that directory, or subscribes and appends. It then sweeps, closing
  the unmarked slots' handles and compacting the table.
- **Waiting.** If nothing is left it returns false. Otherwise it waits on the handles.
  Each wake-up re-arms the signalled handle. Then each entry's filter is set exactly
  when one of its readable paths was written after the call started. It waits again
  until some filter is set. A failed wait releases the whole table.

The model has five modules:

- `Paths` (paths.dfy) covers `isslash` and `monitor_add`'s derivation of a directory
  from a path: one leading `./` or `.\` stripped, a backward scan for the last separator,
  the length reduced modulo 128, and `"."` for an empty result. `DirectoryOf` is the
  specification function, and `DeriveDirectory` is the pointer scan proved to match it.
- `Compaction` (compaction.dfy) holds the sweep as pure functions. `Kept` and `Dropped`
  are the stable partition the sweep's comment describes. `AsWritten` and
  `MarksAsWritten` are what its two loops actually do. `Compacted` and
  `CompactedAsWritten` do the same on the three slot arrays.
- `Changes` (changes.dfy) holds the entries, the null cut-off, the directories the
  registration loop adds, and the classification of one wake-up (`ScanEntry`,
  `ClassifyAll`).
- `Tables` (tables.dfy) treats the registry as one value `Table`: the live records,
  their marks, and the logs of opened and closed handles. It defines each registry
  operation as a function on that value and proves the synchronisation's properties:
  what is watched, no directory twice, and every handle ever opened either live or
  closed exactly once.
- `Registry` (registry.dfy) is the `monitor` struct as a class `Monitor`. It holds the
  arrays `handles`, `directory` and `marks`, and the field `count`. Every operation is a
  method whose contract ties the new state, through `View()`, to the corresponding
  `Tables` function. `Watch` is the whole call with the corrected sweep, and
  `WatchAsWritten` is the call with the sweep as the source writes it.

The operating system is reached only through parameters and ghost logs:

- `FindFirstChangeNotificationA` is a function `subscribe: string -> Option<Handle>`.
- `FindCloseChangeNotification` and `FindNextChangeNotification` append to the ghost
  logs `closeLog` and `rearmLog`, and each opened handle is logged in `openLog`.
- `GetSystemTimeAsFileTime` is the parameter `start`.
- Each return of `WaitForMultipleObjects`, with the last-write times
  `GetFileAttributesExA` would read after it, is one `Wake` of a finite list `wakes`.

## Model

| member | source | states |
|---|---|---|
| Paths.Copied | monitor/windows/monitor.c:143-154 | the text copied once the scan stops is never empty, is shorter than DIR_MAXPATH, and is "." or a prefix of the scanned text |
| Paths.ScanBack | monitor/windows/monitor.c:141-154 | the backward scan from any position gives a non-empty directory shorter than DIR_MAXPATH that is "." or a prefix of the text |
| Paths.ScanBackStops | monitor/windows/monitor.c:141-150 | the scan ends at the rightmost separator at or below its start (or runs off the start), whatever lies between |
| Paths.DirectoryOf | monitor/windows/monitor.c:132-154 | the derived directory is never empty, has at most 127 characters, and is "." or a prefix of the path with its leading "./" removed |
| Paths.Truncate | monitor/windows/monitor.c:129-130 | the strncpy into a 128-byte slot keeps a prefix of at most 127 characters and leaves shorter strings whole |
| Paths.StripDotSuffix | monitor/windows/monitor.c:138-139 | the strip leaves a suffix of the path, exactly two characters shorter when the path opens with a dot and either separator, and the whole path otherwise |
| Paths.StripDotOnce | monitor/windows/monitor.c:138-139 | only one leading "./" is removed: "././x" keeps "./x" |
| Paths.DemoBackslash | monitor/windows/monitor.c:95-98 | `isslash` accepts both separators: a backslash ends the scan like a slash, and ".\" is stripped like "./" |
| Paths.DeriveDirectory | monitor/windows/monitor.c:132-154 | the pointer scan of monitor_add, with `last` taken before the strip, yields exactly DirectoryOf(path) |
| Paths.DirectoryOfSplit | monitor/windows/monitor.c:141-148 | when the last separator sits below DIR_MAXPATH, directory + separator + file name rebuild the stripped path |
| Paths.DirectoryOfCurrent | monitor/windows/monitor.c:151-154 | a path with no separator after its first character lives in "." |
| Paths.DemoStyle | monitor/windows/monitor.c:281 | "hss/style.hss" lives in "hss" |
| Paths.DemoVars | monitor/windows/monitor.c:289 | "hss/subs/_vars.hss" lives in "hss/subs" |
| Paths.DemoLight | monitor/windows/monitor.c:296 | "./hss/light.hss" lives in "hss" once "./" is stripped |
| Paths.DemoColors | monitor/windows/monitor.c:298 | "./hss/subs/colors.hss" lives in "hss/subs" |
| Paths.DemoNoSeparator | monitor/windows/monitor.c:151-154 | a bare file name lives in "." |
| Paths.StripThenScan | monitor/windows/monitor.c:137-141 | "./", ".\x" and "/foo" all give ".", because the scan stops at the stripped start |
| Paths.DirectoryOfWraps | monitor/windows/monitor.c:144 | a 130-character directory part keeps only its first 2 characters: the length is reduced modulo 128, not clamped |
| Changes.Live | monitor/windows/monitor.c:180-184 | the entries looked at are exactly those before the first null, each unwrapped |
| Changes.LiveEntries | monitor/windows/monitor.c:180-184 | with n non-null entries followed by a null or the end, exactly those n are looked at |
| Changes.Wanted | monitor/windows/monitor.c:186-192 | one entry contributes at most one directory per path |
| Changes.WantedShort | monitor/windows/monitor.c:144 | every directory the registration loop adds is non-empty and shorter than DIR_MAXPATH |
| Changes.AllWantedShort | monitor/windows/monitor.c:180-193 | the same holds for all the live entries together |
| Changes.WantedMember | monitor/windows/monitor.c:186-192 | a directory is added for an entry exactly when one of its non-empty paths lives in it (both directions) |
| Changes.AllWantedRequested | monitor/windows/monitor.c:180-193 | a directory is added by the registration loop exactly when some live entry wants it (both directions) |
| Changes.ScanEntry | monitor/windows/monitor.c:222-239 | the scan of one entry finds a path exactly when the entry changed: the hit is newer than the start, and every earlier path is empty, unreadable or not newer |
| Changes.ClassifyAll | monitor/windows/monitor.c:213-241 | each live entry's filter becomes true exactly when one of its readable paths was written strictly after the start; filters past the live entries are not written; the result is true exactly when some entry changed |
| Changes.DependencyFlagsEntry | monitor/windows/monitor.c:222-239 | a dependency written after the start flags its entry even when the primary file did not change |
| Changes.TouchOneFile | monitor/windows/monitor.c:226-230 | an unreadable file is skipped, and only the entry holding the touched file is flagged |
| Changes.NotAfterStart | monitor/windows/monitor.c:229 | the comparison is strict: a write at the start time itself does not count |
| Changes.NewerSkips | monitor/windows/monitor.c:225-229 | an empty path or one whose attributes cannot be read never counts; a readable one counts exactly when its last write is strictly after the start |
| Compaction.Find | monitor/windows/monitor.c:101-106 | the dedupe scan answers the first slot with an equal directory, or -1 when there is none |
| Compaction.FindFirst | monitor/windows/monitor.c:101-106 | the first slot with an equal directory is what the scan answers |
| Compaction.FindNone | monitor/windows/monitor.c:101-106 | with no equal directory the scan answers -1 |
| Compaction.AppendDistinct | monitor/windows/monitor.c:126-130 | appending a directory that is not yet watched keeps the directories distinct |
| Compaction.CountMarked | monitor/windows/monitor.c:59-60 | the number of marked slots among the first n is at most n |
| Compaction.RankMonotone | monitor/windows/monitor.c:72 | each marked slot is given a smaller destination than every later marked slot |
| Compaction.Kept | monitor/windows/monitor.c:47-51 | the stable compaction keeps exactly as many records as there are marks |
| Compaction.Dropped | monitor/windows/monitor.c:64-69 | the sweep closes exactly one handle per unmarked record |
| Compaction.KeptAt | monitor/windows/monitor.c:47-51 | the marked record at p is kept at its rank, in order, and only marked records are kept |
| Compaction.DroppedAt | monitor/windows/monitor.c:64-69 | every unmarked record's handle is closed, and no handle of a marked record is |
| Compaction.KeptDistinct | monitor/windows/monitor.c:47-51 | the stable compaction keeps the directories distinct |
| Compaction.AsWritten | monitor/windows/monitor.c:57-78 | the sweep's loops write the records only below the number of marks reached; slots above keep their records |
| Compaction.MarksAsWritten | monitor/windows/monitor.c:73 | each move sets the mark of the slot it writes, and no other mark changes |
| Compaction.AsWrittenStable | monitor/windows/monitor.c:47-51 | where no two marked records are adjacent after the first unmarked one, the sweep as written is the stable compaction of its comment |
| Compaction.MarksAsWrittenStable | monitor/windows/monitor.c:57-78 | under the same adjacency condition, every slot the sweep as written leaves live is marked |
| Compaction.AllMarkedRank | monitor/windows/monitor.c:59-61 | while every slot so far is marked, the fast path's `acc` equals `cur` |
| Compaction.AsWrittenUntouched | monitor/windows/monitor.c:59-61 | a slot whose marked record the fast path keeps by `acc++` alone is never written |
| Compaction.AsWrittenStableOnlyIf | monitor/windows/monitor.c:57-78 | conversely, with distinct directories, the sweep as written is the stable compaction only under that adjacency condition |
| Compaction.RankBelow | monitor/windows/monitor.c:64 | after an unmarked slot, `acc` stays strictly below the position reached |
| Compaction.CommentExample | monitor/windows/monitor.c:50 | [1, 0, 0, 2, 0, 0, 0, 3] sweeps to [1, 2, 3], with the five zeros' handles closed |
| Compaction.AsWrittenCounterexample | monitor/windows/monitor.c:59-61 | marks [1, 0, 1, 1] over [A, B, C, D] sweep to [A, C, C]: D's handle is neither kept nor closed, and C is watched twice |
| Compaction.Compacted | monitor/windows/monitor.c:52-80 | the stable compaction on the slot arrays keeps them the same size |
| Compaction.CompactedAsWritten | monitor/windows/monitor.c:57-78 | the as-written sweep on the slot arrays keeps them the same size |
| Compaction.MoveInPlace | monitor/windows/monitor.c:59-61 | copying a marked slot onto itself changes nothing |
| Compaction.CompactedAbove | monitor/windows/monitor.c:66-77 | the compaction never writes at or above the rank it has reached |
| Compaction.CompactedAsWrittenAbove | monitor/windows/monitor.c:66-77 | the sweep as written never writes at or above the rank it has reached |
| Compaction.CompactedReads | monitor/windows/monitor.c:59 | the slot the compaction tests next still holds its original record and mark |
| Compaction.CompactedAsWrittenReads | monitor/windows/monitor.c:68 | the slot the sweep as written tests next still holds its original record and mark |
| Compaction.AsWrittenSkip | monitor/windows/monitor.c:59-69 | a position the sweep as written does not move leaves the slots as they are, counts one more mark when it is marked, and closes its handle when it is not |
| Compaction.CompactedKeeps | monitor/windows/monitor.c:52-80 | below the rank reached, the slots hold the kept records, each marked; the slots above are untouched |
| Compaction.CompactedRecords | monitor/windows/monitor.c:52-80 | after the whole compaction, the live slots are exactly the marked records, in order and all marked |
| Compaction.CompactedAsWrittenTable | monitor/windows/monitor.c:57-78 | the slots the sweep as written leaves hold AsWritten and MarksAsWritten, and the slots beyond are untouched |
| Compaction.CompactedAsWrittenRecords | monitor/windows/monitor.c:79 | after the sweep as written, the live slots are the first CountMarked of AsWritten |
| Tables.Added | monitor/windows/monitor.c:99-131 | an add only ever appends one record, and never clears a mark |
| Tables.AddedAll | monitor/windows/monitor.c:186-192 | a sequence of adds never shrinks the table or breaks the capacity bound |
| Tables.Swept | monitor/windows/monitor.c:47-51 | the sweep leaves as many records as there were marks, all marked |
| Tables.SweptAsWritten | monitor/windows/monitor.c:52-80 | the sweep as written also leaves as many records as there were marks |
| Tables.Registered | monitor/windows/monitor.c:178-193 | clearing the marks and registering the live entries never shrinks the table or breaks the capacity bound |
| Tables.Synced | monitor/windows/monitor.c:178-195 | the synchronisation with the corrected sweep keeps the table within capacity |
| Tables.SyncedAsWritten | monitor/windows/monitor.c:178-195 | the synchronisation as the source writes it opens and closes the same handles as Synced and leaves as many records; only the records and marks left in the live slots can differ |
| Tables.FindExtended | monitor/windows/monitor.c:101-106 | appending records never changes the slot where a directory is first found |
| Tables.AddedMarkedIn | monitor/windows/monitor.c:101-105 | the only mark an add sets is on a slot watching the directory added |
| Tables.AddedCovers | monitor/windows/monitor.c:99-131 | after an add, its directory is watched by a marked slot unless its subscription failed or the table is full, and earlier directories stay covered |
| Tables.AddedAllMarkedIn | monitor/windows/monitor.c:186-192 | a sequence of adds marks only slots watching one of its directories |
| Tables.AddedAllCovers | monitor/windows/monitor.c:186-192 | a sequence of adds covers each of its directories |
| Tables.AddedAllKeeps | monitor/windows/monitor.c:126 | adds never move or change the records already present |
| Tables.AddedAllConcat | monitor/windows/monitor.c:180-193 | adding entry by entry is one sequence of adds over all wanted directories |
| Tables.SweptWatches | monitor/windows/monitor.c:52-80 | after the sweep, every record watches a wanted directory, and every wanted directory is watched unless its subscription failed or the table is full |
| Tables.SyncedWatches | monitor/windows/monitor.c:178-195 | after the synchronisation, every live directory was requested by a live entry's non-empty path. Every requested directory is watched unless its subscription failed or registration filled the table. Registration never moves records that were already live |
| Tables.AddedDistinct | monitor/windows/monitor.c:101-130 | an add never makes a directory watched twice |
| Tables.AddedFound | monitor/windows/monitor.c:101-105 | adding a directory already present only sets its slot's mark: no record, count or handle changes, and nothing is opened |
| Tables.AddedNew | monitor/windows/monitor.c:126-130 | a subscribed new directory with room is appended at the old count, marked, and found there |
| Tables.AddedTwice | monitor/windows/monitor.c:101-105 | once an add has found or stored a directory, adding it again changes nothing |
| Tables.AddedEffects | monitor/windows/monitor.c:108-125 | subscription before the capacity check: a handle is opened exactly when the directory is new and subscribed. It is closed again exactly when the table is full, and then the table is unchanged. A failed subscription changes nothing |
| Tables.ReleasedEmpty | monitor/windows/monitor.c:89-92 | release with no live slot does nothing |
| Tables.AddedAllDistinct | monitor/windows/monitor.c:186-192 | a sequence of adds never makes a directory watched twice |
| Tables.SyncedDistinct | monitor/windows/monitor.c:178-195 | the synchronisation never watches a directory twice |
| Tables.KeptDroppedHandles | monitor/windows/monitor.c:52-80 | the kept handles and the closed ones together are exactly the handles before the sweep, as multisets |
| Tables.AddedAccounted | monitor/windows/monitor.c:108-130 | an add leaves every handle ever opened either live or closed, and none twice |
| Tables.SweptAccounted | monitor/windows/monitor.c:52-80 | the sweep keeps that accounting: every dropped handle is closed exactly once |
| Tables.ReleasedAccounted | monitor/windows/monitor.c:87-93 | release keeps that accounting |
| Tables.AddedAllAccounted | monitor/windows/monitor.c:186-192 | a sequence of adds keeps that accounting |
| Tables.SyncedAccounted | monitor/windows/monitor.c:178-195 | the synchronisation leaks no handle and closes none twice |
| Tables.SweptAsWrittenStable | monitor/windows/monitor.c:47-80 | where no two marked records are adjacent after the first unmarked one, the sweep as written leaves exactly the table of the comment's sweep |
| Tables.SyncedAsWrittenStable | monitor/windows/monitor.c:178-195 | when registration leaves the marks in that shape, watch as written synchronises to Synced, so SyncedWatches, SyncedDistinct and SyncedAccounted hold of it |
| Tables.SweptAsWrittenLeaks | monitor/windows/monitor.c:59-61 | marks [1, 0, 1, 1] over handles 1 to 4 leave handles [1, 3, 3] live and [2] closed: handle 4 is neither, so the accounting breaks |
| Tables.SweptAsWrittenClosesLive | monitor/windows/monitor.c:59-77 | marks [1, 0, 0, 1, 1] over handles 1 to 5 leave the records of 1, 4 and 3, the last unmarked: handle 3 is both closed and live, and handle 5 is lost |
| Tables.LeakWanted | monitor/windows/monitor.c:186-192 | one entry with files in A, C and D asks for A, C and D, in that order |
| Tables.LeakFound | monitor/windows/monitor.c:101-106 | in a table watching A, B and C the dedupe scan finds A at slot 0 and C at slot 2, and does not find D |
| Tables.LeakAdded | monitor/windows/monitor.c:99-130 | adding A, C and D to an unmarked table watching A, B and C finds A and C and appends D, leaving the marks [1, 0, 1, 1] |
| Tables.LeakStart | monitor/windows/monitor.c:108-130 | that table, with handles 1 to 3 opened and none closed, accounts for every handle |
| Tables.LeakRegistered | monitor/windows/monitor.c:178-193 | clearing the marks and registering that entry against that table leaves the records A, B, C, D with marks [1, 0, 1, 1] |
| Tables.SyncedAsWrittenLeaks | monitor/windows/monitor.c:178-195 | that entry against that table makes watch as written lose the new handle, while Synced accounts for every handle |
| Registry.Monitor.constructor | monitor/windows/monitor.c:20-25 | the static table starts empty with no mark set and nothing opened |
| Registry.Monitor.View | monitor/windows/monitor.c:20-25 | the live records and marks always respect the capacity of 32 |
| Registry.Monitor.Init | monitor/windows/monitor.c:82-85 | monitor_init empties the table without closing anything |
| Registry.Monitor.MarksCleanup | monitor/windows/monitor.c:40-45 | every mark is cleared and nothing else changes |
| Registry.Monitor.Release | monitor/windows/monitor.c:87-93 | it closes each live handle once, in slot order, and sets count to 0 |
| Registry.Monitor.AddInner | monitor/windows/monitor.c:99-131 | the arrays, count and logs change exactly as Added says |
| Registry.Monitor.Lookup | monitor/windows/monitor.c:101-106 | the strcmp loop answers Find |
| Registry.Monitor.Open | monitor/windows/monitor.c:108-125 | the new handle is logged as opened, and closed again at once when the table is full |
| Registry.Monitor.Store | monitor/windows/monitor.c:126-130 | the handle and the truncated directory go to slot count, marked, and count grows by one |
| Registry.Monitor.Add | monitor/windows/monitor.c:132-156 | monitor_add adds the directory DirectoryOf derives from the path |
| Registry.Monitor.MoveSlot | monitor/windows/monitor.c:72-75 | the slot copy of the inner loop: handle, directory and mark at the destination, nothing else |
| Registry.Monitor.SweepAsWritten | monitor/windows/monitor.c:52-80 | the source's sweep leaves the table SweptAsWritten describes |
| Registry.Monitor.ScanAsWritten | monitor/windows/monitor.c:57-78 | the source's two loops leave the slots CompactedAsWritten describes, count the marks, and close the unmarked handles in order |
| Registry.Monitor.GapAsWritten | monitor/windows/monitor.c:66-77 | the inner loop closes unmarked slots until a marked one, which it moves to slot acc |
| Registry.Monitor.Sweep | monitor/windows/monitor.c:52-80 | the corrected sweep leaves the stable compaction of the comment, with every unmarked handle closed once |
| Registry.Monitor.Scan | monitor/windows/monitor.c:57-78 | the corrected loops leave the slots Compacted describes |
| Registry.Monitor.Keep | monitor/windows/monitor.c:59-61 | the corrected fast path moves a marked record down to slot acc, which is the stable compaction step at every position, gap or not |
| Registry.Monitor.Gap | monitor/windows/monitor.c:66-77 | the inner loop of the corrected sweep, unchanged from the source |
| Registry.Monitor.RegisterEntry | monitor/windows/monitor.c:186-192 | monitor_add for each non-empty path of one entry, in order |
| Registry.Monitor.RegisterAll | monitor/windows/monitor.c:180-193 | the registration loop adds the directories of all entries before the first null, in order |
| Registry.Monitor.Sync | monitor/windows/monitor.c:178-195 | the marks are cleared, the entries registered and the table swept with the corrected sweep, giving Synced |
| Registry.Monitor.SyncAsWritten | monitor/windows/monitor.c:178-195 | the marks are cleared, the entries registered and the table swept as written, giving SyncedAsWritten |
| Registry.QuietStep | monitor/windows/monitor.c:209-244 | a wake that names a live slot and finds no change extends the quiet prefix and re-arms exactly the handle it signalled before waiting again |
| Registry.Monitor.Wait | monitor/windows/monitor.c:200-244 | it stops at the first wake that finds a change (the result is true and the filters are set per entry) or whose status is no live slot (the table is released). Every earlier wake re-armed its handle and found nothing. Filters past the live entries are never written |
| Registry.Monitor.Watch | monitor/windows/monitor.c:173-245 | with the corrected sweep: when the synchronised table is empty it returns without waiting or touching the filters; otherwise it waits on that table as Wait says |
| Registry.Monitor.WatchAsWritten | monitor/windows/monitor.c:173-245 | watch as the source writes it: the same outcomes as Watch, over the table SyncedAsWritten leaves |

## Left out

- Operating-system calls are not executed. FindFirstChangeNotificationA is the
  parameter `subscribe`, and each return of WaitForMultipleObjects, paired with what
  GetFileAttributesExA and CompareFileTime would then read, is one `Wake`. Closing and
  re-arming a handle are entries in ghost logs, and GetSystemTimeAsFileTime is the
  parameter `start`. The oracle answers for a directory are fixed within one call.
- The blocking wait and its unbounded `goto waitfor` retry are modelled over a finite
  list of wakes. When the list runs out with no change found, the outcome is
  `StillWaiting`, where the source would block again.
- neko value marshalling (`VAL_ARRAY_SIZE`, `VAL_ARRAY_PTR`, `val_is_null`,
  `val_string`, `val_strlen`, `alloc_array`) is left out. Entries are a sequence of
  optional sequences of strings, the filters an array of booleans, and the boolean
  result is the `Outcome`, with `NothingToWatch` and `WaitFailed` both standing for
  `val_false`.
- `DllMain`, `DEFINE_PRIM` and the demo `main` are lifecycle glue and are not modelled.
  Their sample paths appear only as the `Demo` lemmas.
- `printf`, `fprintf` and `trace` are diagnostics with no effect on the state.
- Strings are taken to contain no NUL byte, so `strcmp` is sequence equality, `strncpy`
  is a prefix, and `val_strlen` is the length.
- The one-word mark bitmap is an array of 32 booleans: `marks[i]` is
  `ENTRY_MARK_VALUE(i)`, and the bit arithmetic of the macros is not modelled.
- Slots at or beyond `count` are not part of `View()`. After a sweep they hold stale
  copies, as in the source, and nothing reads them.
- The sweeps append the handles they close to `closeLog` once their loops end, not one
  at a time. The order is the same.
- `WAIT_OBJECT_0` is taken as 0, so a status is the slot it names. Any status at or
  above `count`, including WAIT_FAILED, is the error path.
- `Wait` and `Watch` require the filters array to be distinct from the mark array.
  These are different objects in the source.
- Registry.Monitor.Init: like monitor_init, it forgets the live handles without closing
  them, so in general it does not preserve `Accounted`. The source calls it only once,
  on an empty table.
- Paths.DirectoryOf: the length reduction follows the code (modulo 128) rather than a
  clamp to 127, which a description of the intent might suggest.
  `Paths.DirectoryOfWraps` shows the difference.
- The filters array is taken to have a slot for every live entry (`Changes.ClassifyAll`,
  `Wait`, `Watch` and `WatchAsWritten` require it). The source writes
  `VAL_ARRAY_PTR(filters)[i]` without checking the array's size; what it does past the
  end is not modelled.
- Tables.Synced: it models watch's first half with the corrected sweep, not the sweep
  as written at line 195. `Tables.SyncedAsWritten` is the version as written.
- Tables.SyncedWatches: proved for the corrected sweep only. Watch as written can keep a
  directory no entry asked for, whose handle it has already closed, and can drop one
  that was asked for (`Tables.SweptAsWrittenClosesLive`). It holds of the version as
  written where `Tables.SyncedAsWrittenStable` applies.
- Tables.SyncedDistinct: proved for the corrected sweep only. Watch as written can watch
  a directory twice (`Compaction.AsWrittenCounterexample`). It holds of the version as
  written where `Tables.SyncedAsWrittenStable` applies.
- Tables.SyncedAccounted: proved for the corrected sweep only. Watch as written can lose
  a handle (`Tables.SyncedAsWrittenLeaks`). It holds of the version as written where
  `Tables.SyncedAsWrittenStable` applies.
- Registry.Monitor.Sync: it calls the corrected `Sweep`. `Registry.Monitor.SyncAsWritten`
  calls `SweepAsWritten`, as line 195 does.
- Registry.Monitor.Watch: it waits on the table the corrected sweep leaves.
  `Registry.Monitor.WatchAsWritten` is the call as written.
- Changes.Wanted: its own contract states only a length bound. What it means is stated
  by Changes.WantedMember, and for all the live entries by Changes.AllWantedRequested.

## Findings

| source | as written | input that shows it | evidently intended | confidence | as-written member | corrected member |
|---|---|---|---|---|---|---|
| monitor/windows/monitor.c:59-61 | the outer loop keeps a marked record with `acc++` alone, without moving it to slot `acc`, even after an unmarked record has opened a gap | marks [1, 0, 1, 1] over records [A, B, C, D]: the table becomes [A, C, C], D's handle is neither kept nor closed, and C is watched twice | the stable compaction of the comment at lines 47-51: the marked records in order, each unmarked handle closed once | not executed | Compaction.AsWrittenCounterexample | Registry.Monitor.Sweep |

`Registry.Monitor.SweepAsWritten` and `Tables.SweptAsWritten` model the loops as written.
`Compaction.AsWrittenStable` and `Compaction.AsWrittenStableOnlyIf` prove exactly when
that version agrees with the intended one. The corrected `Registry.Monitor.Sweep`
(through `Scan`) moves every marked record after a gap.

The whole call exists in both versions. `Registry.Monitor.Sync` and `Watch` use the
corrected sweep, and the `Tables.Synced*` properties are proved for them.
`Registry.Monitor.SyncAsWritten` and `WatchAsWritten` use the sweep as written and
give `Tables.SyncedAsWritten`. `Tables.SyncedAsWrittenStable` makes the two agree when
registration leaves no two marked records adjacent after a gap.
`Tables.SyncedAsWrittenLeaks` shows that registration can leave the marks
[1, 0, 1, 1]: a table watching A, B and C, with one entry whose files live in A, C
and D. Watch as written then loses D's new handle.
