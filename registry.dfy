/** The directory-watch registry of monitor.c: a fixed table of change-notification
    handles, each with the directory it watches and a mark bit, and the watch call
    that synchronises it with the caller's entries and waits on it. */
module Registry {
  import opened Optional
  import opened Paths
  import opened Compaction
  import opened Changes
  import opened Tables

  /** A DWORD. */
  type DWord = x: int | 0 <= x < 0x1_0000_0000

  /** One return of WaitForMultipleObjects: the status it answers, and the last-write
      times GetFileAttributesExA reads after it. */
  datatype Wake = Wake(status: DWord, times: Times)

  /** How watch ends: with no directory to watch or a failed wait (both return false),
      with a change found at some wake (true), or still waiting once the finite list of
      wakes is exhausted. */
  datatype Outcome = NothingToWatch | WaitFailed(wake: nat) | Changed(wake: nat) | StillWaiting

  /** Each of ws signalled a live slot of t, and no live entry had changed at it. */
  ghost predicate Quiet(t: Table, live: seq<Entry>, start: FileTime, ws: seq<Wake>)
  {
    forall k :: 0 <= k < |ws| ==> ws[k].status < |t.recs| && !AnyChanged(live, ws[k].times, start)
  }

  /** The handles FindNextChangeNotification re-arms for the wakes ws, in order. */
  ghost function Rearmed(t: Table, ws: seq<Wake>): seq<Handle>
    requires forall k :: 0 <= k < |ws| ==> ws[k].status < |t.recs|
  {
    seq(|ws|, k requires 0 <= k < |ws| => t.recs[ws[k].status].handle)
  }

  /** One more quiet wake extends the quiet prefix, and re-arms the handle it signalled. */
  lemma QuietStep(t: Table, live: seq<Entry>, start: FileTime, ws: seq<Wake>, w: nat)
    requires w < |ws| && Quiet(t, live, start, ws[..w])
    requires ws[w].status < |t.recs| && !AnyChanged(live, ws[w].times, start)
    ensures Quiet(t, live, start, ws[..w + 1])
    ensures Rearmed(t, ws[..w + 1]) == Rearmed(t, ws[..w]) + [t.recs[ws[w].status].handle]
  {
    assert ws[..w + 1] == ws[..w] + [ws[w]];
  }

  /** The registry. The operating system is reached only through the ghost logs:
      `openLog` records every handle FindFirstChangeNotificationA returned, `closeLog`
      every handle given to FindCloseChangeNotification, `rearmLog` every handle given
      to FindNextChangeNotification. */
  class Monitor {
    var count: int
    const handles: array<Handle>
    const directory: array<string>
    /** The mark bitmap, one boolean per slot: marks[i] is ENTRY_MARK_VALUE(i). */
    const marks: array<bool>
    ghost var openLog: seq<Handle>
    ghost var closeLog: seq<Handle>
    ghost var rearmLog: seq<Handle>

    ghost predicate Valid()
      reads this, directory
    {
      handles.Length == ENTRIES && directory.Length == ENTRIES && marks.Length == ENTRIES
      && 0 <= count <= ENTRIES
      && forall k :: 0 <= k < ENTRIES ==> |directory[k]| < DIR_MAXPATH
    }

    /** The slot arrays as one value. */
    ghost function Slots(): (s: Slots)
      reads handles, directory, marks
      ensures s.hs == handles[..] && s.ds == directory[..] && s.mk == marks[..]
    {
      Compaction.Slots(handles[..], directory[..], marks[..])
    }

    /** The live records. */
    ghost function Records(): (recs: seq<Record>)
      reads this, handles, directory, marks
      requires Valid()
      ensures |recs| == count
      ensures forall k :: 0 <= k < count ==> recs[k] == Record(handles[k], directory[k])
    {
      RecordsOf(Slots(), count)
    }

    /** The marks of the live records. */
    ghost function Marks(): (ms: seq<bool>)
      reads this, handles, directory, marks
      requires Valid()
      ensures ms == marks[..count]
    {
      Slots().mk[..count]
    }

    /** The live part of the registry and the handle logs as one value. */
    ghost function View(): (t: Table)
      reads this, handles, directory, marks
      requires Valid()
      ensures t.Valid()
    {
      Table(Records(), Marks(), openLog, closeLog)
    }

    /** The zero-initialised static table. */
    constructor ()
      ensures Valid() && count == 0
      ensures forall k :: 0 <= k < ENTRIES ==> !marks[k]
      ensures openLog == [] && closeLog == [] && rearmLog == []
    {
      count := 0;
      handles := new Handle[ENTRIES];
      directory := new string[ENTRIES](_ => "");
      marks := new bool[ENTRIES](_ => false);
      openLog, closeLog, rearmLog := [], [], [];
    }

    /** monitor_init: forgets the table without closing anything. */
    method Init()
      requires Valid()
      modifies this
      ensures Valid() && View() == Table([], [], old(openLog), old(closeLog)) && rearmLog == old(rearmLog)
    {
      count := 0;
    }

    /** monitor_marks_cleanup: clears every mark. */
    method MarksCleanup()
      requires Valid()
      modifies marks
      ensures Valid() && View() == Cleared(old(View()))
      ensures forall k :: 0 <= k < ENTRIES ==> !marks[k]
    {
      ghost var s := Slots();
      for i := 0 to marks.Length
        invariant forall k :: 0 <= k < i ==> !marks[k]
        invariant handles[..] == s.hs && directory[..] == s.ds
      {
        marks[i] := false;
      }
      SameRecords(s, Slots(), count);
      assert Marks() == seq(count, _ => false);
    }

    /** monitor_release: closes the live handles in slot order and empties the table. */
    method Release()
      requires Valid()
      modifies this
      ensures Valid() && View() == Released(old(View())) && rearmLog == old(rearmLog)
    {
      ghost var recs := Records();
      var i := 0;
      while i < count
        invariant 0 <= i <= count && Valid() && Records() == recs
        invariant closeLog == old(closeLog) + Handles(recs[..i])
        invariant openLog == old(openLog) && rearmLog == old(rearmLog)
      {
        assert recs[..i + 1][..i] == recs[..i];
        closeLog := closeLog + [handles[i]];
        i := i + 1;
      }
      assert recs[..i] == recs;
      count := 0;
    }

    /** monitor_add_inner when FindFirstChangeNotificationA would answer `subscription`:
        a directory already watched only gets its mark; otherwise a subscription is
        opened first, and closed again when the table is full. */
    method AddInner(dir: string, subscription: Option<Handle>)
      requires Valid()
      modifies this, handles, directory, marks
      ensures Valid() && View() == Added(old(View()), dir, subscription) && rearmLog == old(rearmLog)
    {
      var i := Lookup(dir);
      if i >= 0 {
        ghost var s := Slots();
        marks[i] := true;
        SameRecords(s, Slots(), count);
        assert Marks() == old(Marks())[i := true];
        return;
      }
      if subscription.None? {
        return;
      }
      Open(dir, subscription.value);
    }

    /** The search loop of monitor_add_inner: the first live slot watching dir. */
    method Lookup(dir: string) returns (i: int)
      requires Valid()
      ensures i == Find(Records(), dir)
    {
      i := 0;
      while i < count
        invariant 0 <= i <= count
        invariant forall k :: 0 <= k < i ==> directory[k] != dir
      {
        if directory[i] == dir {
          FindFirst(Records(), dir, i);
          return;
        }
        i := i + 1;
      }
      FindNone(Records(), dir);
      i := -1;
    }

    /** The tail of monitor_add_inner once FindFirstChangeNotificationA has answered
        `handle` for a directory not in the table. */
    method Open(dir: string, handle: Handle)
      requires Valid() && Find(Records(), dir) < 0
      modifies this, handles, directory, marks
      ensures Valid() && View() == Added(old(View()), dir, Some(handle)) && rearmLog == old(rearmLog)
    {
      ghost var t := View();
      openLog := openLog + [handle];
      if count >= ENTRIES {
        closeLog := closeLog + [handle];
        assert View() == t.(opens := t.opens + [handle], closes := t.closes + [handle]);
        return;
      }
      Store(dir, handle);
    }

    /** The last lines of monitor_add_inner: the next free slot takes the handle, the
        directory copied with strncpy and the mark. */
    method Store(dir: string, handle: Handle)
      requires Valid() && count < ENTRIES
      modifies this, handles, directory, marks
      ensures Valid() && Records() == old(Records()) + [Record(handle, Truncate(dir))]
      ensures Marks() == old(Marks()) + [true]
      ensures openLog == old(openLog) && closeLog == old(closeLog) && rearmLog == old(rearmLog)
    {
      var slot := count;
      count := count + 1;
      marks[slot] := true;
      handles[slot] := handle;
      directory[slot] := Truncate(dir);
      assert Records() == old(Records()) + [Record(handle, Truncate(dir))];
    }

    /** monitor_add: registers the directory of a file path. */
    method Add(path: string, subscribe: string -> Option<Handle>)
      requires Valid()
      modifies this, handles, directory, marks
      ensures Valid() && rearmLog == old(rearmLog)
      ensures View() == Added(old(View()), DirectoryOf(path), subscribe(DirectoryOf(path)))
    {
      var dir := DeriveDirectory(path);
      AddInner(dir, subscribe(dir));
    }

    /** ENTRY_MARK_SET(to), the handle copy and ENTRY_DIR_COPY(to, from); the copy
        truncates nothing, as every stored directory is shorter than DIR_MAXPATH. */
    method MoveSlot(from: int, to: int)
      requires Valid() && 0 <= from < ENTRIES && 0 <= to < ENTRIES
      modifies handles, directory, marks
      ensures Valid() && Slots() == old(Slots()).Move(from, to)
    {
      marks[to] := true;
      handles[to] := handles[from];
      directory[to] := Truncate(directory[from]);
    }

    /** monitor_marks_sweep as written: ScanAsWritten runs its two loops, then the
        count becomes `acc` and the closed handles are logged. */
    method SweepAsWritten()
      requires Valid()
      modifies this, handles, directory, marks
      ensures Valid() && View() == SweptAsWritten(old(View())) && rearmLog == old(rearmLog)
    {
      ghost var s0 := Slots();
      var acc;
      ghost var closed;
      acc, closed := ScanAsWritten(RecordsOf(s0, count), s0.mk[..count], s0);
      closeLog := closeLog + closed;
      ghost var n := count;
      count := acc;
      CompactedAsWrittenRecords(s0, n);
    }

    /** The outer loop of monitor_marks_sweep: a marked record after a marked one is
        kept with `acc++` alone; after an unmarked record, GapAsWritten runs the inner loop. */
    method ScanAsWritten(ghost recs: seq<Record>, ghost ms: seq<bool>, ghost s0: Slots)
      returns (acc: int, ghost closed: seq<Handle>)
      requires Valid() && s0.Sized(ENTRIES) && Slots() == s0
      requires recs == RecordsOf(s0, count) && ms == s0.mk[..count]
      modifies handles, directory, marks
      ensures Valid() && acc == CountMarked(ms, count)
      ensures Slots() == CompactedAsWritten(s0, ms, count) && closed == Dropped(recs, ms, count)
    {
      closed := [];
      var n := count;
      var i := 0;
      acc := 0;
      while i < n
        invariant 0 <= i <= n && Valid()
        invariant acc == CountMarked(ms, i) && Slots() == CompactedAsWritten(s0, ms, i)
        invariant i < n ==> i == 0 || ms[i - 1]
        invariant closed == Dropped(recs, ms, i)
      {
        var cur := i;
        i := i + 1;
        CompactedAsWrittenReads(s0, recs, ms, cur);
        AsWrittenSkip(s0, recs, ms, cur);
        if marks[cur] {
          acc := acc + 1;
        } else {
          closed := closed + [handles[cur]];
          i, acc, closed := GapAsWritten(recs, ms, s0, closed, i, acc);
        }
      }
    }

    /** The inner loop of monitor_marks_sweep, entered at i just after an unmarked
        record: closes unmarked records until a marked one, which it moves to slot acc. */
    method GapAsWritten(ghost recs: seq<Record>, ghost ms: seq<bool>, ghost s0: Slots, ghost closed0: seq<Handle>,
                        i0: int, acc0: int)
      returns (i: int, acc: int, ghost closed: seq<Handle>)
      requires Valid() && s0.Sized(ENTRIES) && recs == RecordsOf(s0, count) && ms == s0.mk[..count]
      requires 0 < i0 <= count && !ms[i0 - 1]
      requires acc0 == CountMarked(ms, i0) && Slots() == CompactedAsWritten(s0, ms, i0)
      requires closed0 == Dropped(recs, ms, i0)
      modifies handles, directory, marks
      ensures Valid() && i0 <= i <= count && (i < count ==> ms[i - 1])
      ensures acc == CountMarked(ms, i) && Slots() == CompactedAsWritten(s0, ms, i)
      ensures closed == Dropped(recs, ms, i)
    {
      i, acc, closed := i0, acc0, closed0;
      var n := count;
      while i < n
        invariant 0 < i <= n && Valid()
        invariant acc == CountMarked(ms, i) && Slots() == CompactedAsWritten(s0, ms, i)
        invariant !ms[i - 1]
        invariant closed == Dropped(recs, ms, i)
      {
        var next := i;
        i := i + 1;
        CompactedAsWrittenReads(s0, recs, ms, next);
        if !marks[next] {
          closed := closed + [handles[next]];
          continue;
        }
        var slot := acc;
        acc := acc + 1;
        MoveSlot(next, slot);
        return;
      }
    }

    /** monitor_marks_sweep with the outer loop's fast path also moving the record
        when a gap has opened (acc != cur): the stable compaction of its comment. */
    method Sweep()
      requires Valid()
      modifies this, handles, directory, marks
      ensures Valid() && View() == Swept(old(View())) && rearmLog == old(rearmLog)
    {
      ghost var s0 := Slots();
      var acc;
      ghost var closed;
      acc, closed := Scan(RecordsOf(s0, count), s0.mk[..count], s0);
      closeLog := closeLog + closed;
      ghost var n := count;
      count := acc;
      CompactedRecords(s0, n);
    }

    /** The outer loop of the sweep: a marked record is kept, and copied down to slot
        acc when a gap has opened; after an unmarked record, Gap runs the inner loop. */
    method Scan(ghost recs: seq<Record>, ghost ms: seq<bool>, ghost s0: Slots)
      returns (acc: int, ghost closed: seq<Handle>)
      requires Valid() && s0.Sized(ENTRIES) && Slots() == s0
      requires recs == RecordsOf(s0, count) && ms == s0.mk[..count]
      modifies handles, directory, marks
      ensures Valid() && acc == CountMarked(ms, count)
      ensures Slots() == Compacted(s0, ms, count) && closed == Dropped(recs, ms, count)
    {
      closed := [];
      var n := count;
      var i := 0;
      acc := 0;
      while i < n
        invariant 0 <= i <= n && Valid()
        invariant acc == CountMarked(ms, i) && Slots() == Compacted(s0, ms, i)
        invariant closed == Dropped(recs, ms, i)
      {
        var cur := i;
        i := i + 1;
        CompactedReads(s0, recs, ms, cur);
        if marks[cur] {
          Keep(ms, s0, cur, acc);
          acc := acc + 1;
        } else {
          closed := closed + [handles[cur]];
          i, acc, closed := Gap(recs, ms, s0, closed, i, acc);
        }
      }
    }

    /** The corrected fast path: a marked record met by the outer loop is moved down to
        slot acc too, which leaves it in place while no gap has been met. */
    method Keep(ghost ms: seq<bool>, ghost s0: Slots, cur: int, acc: int)
      requires Valid() && s0.Sized(ENTRIES) && count <= ENTRIES && |ms| == count
      requires 0 <= cur < count && ms[cur] && marks[cur] && acc == CountMarked(ms, cur)
      requires Slots() == Compacted(s0, ms, cur)
      modifies handles, directory, marks
      ensures Valid() && Slots() == Compacted(s0, ms, cur + 1)
    {
      if acc != cur {
        MoveSlot(cur, acc);
      } else {
        MoveInPlace(Slots(), cur);
      }
    }

    /** The inner loop of the sweep, unchanged from the source. */
    method Gap(ghost recs: seq<Record>, ghost ms: seq<bool>, ghost s0: Slots, ghost closed0: seq<Handle>,
               i0: int, acc0: int)
      returns (i: int, acc: int, ghost closed: seq<Handle>)
      requires Valid() && s0.Sized(ENTRIES) && recs == RecordsOf(s0, count) && ms == s0.mk[..count]
      requires 0 < i0 <= count
      requires acc0 == CountMarked(ms, i0) && Slots() == Compacted(s0, ms, i0)
      requires closed0 == Dropped(recs, ms, i0)
      modifies handles, directory, marks
      ensures Valid() && i0 <= i <= count
      ensures acc == CountMarked(ms, i) && Slots() == Compacted(s0, ms, i)
      ensures closed == Dropped(recs, ms, i)
    {
      i, acc, closed := i0, acc0, closed0;
      var n := count;
      while i < n
        invariant 0 < i <= n && Valid()
        invariant acc == CountMarked(ms, i) && Slots() == Compacted(s0, ms, i)
        invariant closed == Dropped(recs, ms, i)
      {
        var next := i;
        i := i + 1;
        CompactedReads(s0, recs, ms, next);
        if !marks[next] {
          closed := closed + [handles[next]];
          continue;
        }
        var slot := acc;
        acc := acc + 1;
        MoveSlot(next, slot);
        return;
      }
    }
  
    /** The registration loop of watch for one entry: monitor_add for each non-empty path. */
    method RegisterEntry(entry: Entry, subscribe: string -> Option<Handle>)
      requires Valid()
      modifies this, handles, directory, marks
      ensures Valid() && View() == AddedAll(old(View()), Wanted(entry, |entry|), subscribe)
      ensures rearmLog == old(rearmLog)
    {
      ghost var t0 := View();
      for j := 0 to |entry|
        invariant Valid() && View() == AddedAll(t0, Wanted(entry, j), subscribe) && rearmLog == old(rearmLog)
      {
        var path := entry[j];
        if |path| == 0 {
          continue;
        }
        ghost var before := Wanted(entry, j);
        Add(path, subscribe);
        assert (before + [DirectoryOf(path)])[..|before|] == before;
      }
    }

    /** The registration loop of watch over the entries, up to the first null one. */
    method RegisterAll(entries: seq<Option<Entry>>, subscribe: string -> Option<Handle>)
      requires Valid()
      modifies this, handles, directory, marks
      ensures Valid() && View() == AddedAll(old(View()), AllWanted(Live(entries), |Live(entries)|), subscribe)
      ensures rearmLog == old(rearmLog)
    {
      ghost var t0 := View();
      ghost var live := Live(entries);
      ghost var done: seq<string> := [];
      var i := 0;
      while i < |entries|
        invariant 0 <= i <= |live| && Valid() && done == AllWanted(live, i)
        invariant View() == AddedAll(t0, done, subscribe) && rearmLog == old(rearmLog)
      {
        if entries[i].None? {
          break;
        }
        assert i < |live| && entries[i] == Some(live[i]);
        RegisterEntry(entries[i].value, subscribe);
        AddedAllConcat(t0, done, Wanted(live[i], |live[i]|), subscribe);
        done := done + Wanted(live[i], |live[i]|);
        i := i + 1;
      }
      assert i == |live|;
    }

    /** The first half of watch: marks cleared, the entries registered, the sweep. */
    method Sync(entries: seq<Option<Entry>>, subscribe: string -> Option<Handle>)
      requires Valid()
      modifies this, handles, directory, marks
      ensures Valid() && View() == Synced(old(View()), Live(entries), subscribe) && rearmLog == old(rearmLog)
    {
      MarksCleanup();
      RegisterAll(entries, subscribe);
      Sweep();
    }

    /** The first half of watch as the source writes it, with the sweep as written. */
    method SyncAsWritten(entries: seq<Option<Entry>>, subscribe: string -> Option<Handle>)
      requires Valid()
      modifies this, handles, directory, marks
      ensures Valid() && View() == SyncedAsWritten(old(View()), Live(entries), subscribe) && rearmLog == old(rearmLog)
    {
      MarksCleanup();
      RegisterAll(entries, subscribe);
      SweepAsWritten();
    }

    /** What the waiting half of watch leaves, from the table t0 it waits on, the re-arm
        log rearms0 and the filters filters0 it starts from. */
    ghost predicate Waited(t0: Table, live: seq<Entry>, start: FileTime, wakes: seq<Wake>, outcome: Outcome,
                           rearms0: seq<Handle>, filters: array<bool>, filters0: seq<bool>)
      reads this, handles, directory, marks, filters
      requires Valid() && t0.Valid() && |live| <= filters.Length
    {
      && (forall i :: |live| <= i < filters.Length && i < |filters0| ==> filters[i] == filters0[i])
      && match outcome
        case NothingToWatch => false
        case WaitFailed(w) =>
          w < |wakes| && Quiet(t0, live, start, wakes[..w]) && wakes[w].status >= |t0.recs|
          && View() == Released(t0) && rearmLog == rearms0 + Rearmed(t0, wakes[..w])
          && forall i :: 0 <= i < |live| && i < |filters0| ==> filters[i] == (w == 0 && filters0[i])
        case Changed(w) =>
          w < |wakes| && Quiet(t0, live, start, wakes[..w]) && wakes[w].status < |t0.recs|
          && AnyChanged(live, wakes[w].times, start)
          && View() == t0 && rearmLog == rearms0 + Rearmed(t0, wakes[..w]) + [t0.recs[wakes[w].status].handle]
          && forall i :: 0 <= i < |live| ==> filters[i] == EntryChanged(live[i], wakes[w].times, start)
        case StillWaiting =>
          Quiet(t0, live, start, wakes) && View() == t0 && rearmLog == rearms0 + Rearmed(t0, wakes)
          && forall i :: 0 <= i < |live| && i < |filters0| ==> filters[i] == (|wakes| == 0 && filters0[i])
    }

    /** The waiting half of watch, from the `waitfor` label: a status that names no live
        slot releases the table; otherwise the signalled handle is re-armed and the
        entries are compared against the start, and the first wake that finds a change
        ends the wait. */
    method Wait(entries: seq<Option<Entry>>, filters: array<bool>, start: FileTime, wakes: seq<Wake>)
      returns (outcome: Outcome)
      requires Valid() && count > 0 && |Live(entries)| <= filters.Length && filters != marks
      modifies this, handles, directory, marks, filters
      ensures Valid()
      ensures Waited(old(View()), Live(entries), start, wakes, outcome, old(rearmLog), filters, old(filters[..]))
    {
      ghost var t0 := View();
      ghost var live := Live(entries);
      ghost var filters0 := filters[..];
      var w := 0;
      while w < |wakes|
        invariant 0 <= w <= |wakes| && Valid() && View() == t0
        invariant Quiet(t0, live, start, wakes[..w]) && rearmLog == old(rearmLog) + Rearmed(t0, wakes[..w])
        invariant forall i :: |live| <= i < filters.Length ==> filters[i] == filters0[i]
        invariant forall i :: 0 <= i < |live| ==> filters[i] == (w == 0 && filters0[i])
      {
        var status := wakes[w].status;
        if status >= count {
          Release();
          return WaitFailed(w);
        }
        rearmLog := rearmLog + [handles[status]];
        var found := ClassifyAll(entries, filters, wakes[w].times, start);
        if found {
          return Changed(w);
        }
        QuietStep(t0, live, start, wakes, w);
        w := w + 1;
      }
      assert wakes[..w] == wakes;
      return StillWaiting;
    }

    /** watch: synchronise the table with the entries, then wait on it. */
    method Watch(entries: seq<Option<Entry>>, filters: array<bool>, start: FileTime,
                 subscribe: string -> Option<Handle>, wakes: seq<Wake>)
      returns (outcome: Outcome)
      requires Valid() && |Live(entries)| <= filters.Length && filters != marks
      modifies this, handles, directory, marks, filters
      ensures Valid()
      ensures var t := Synced(old(View()), Live(entries), subscribe);
        if outcome.NothingToWatch? then
          t.recs == [] && View() == t && rearmLog == old(rearmLog) && filters[..] == old(filters[..])
        else
          t.recs != [] && Waited(t, Live(entries), start, wakes, outcome, old(rearmLog), filters, old(filters[..]))
    {
      Sync(entries, subscribe);
      if count == 0 {
        return NothingToWatch;
      }
      outcome := Wait(entries, filters, start, wakes);
    }

    /** watch as the source writes it: the same call, synchronising with the sweep as
        written before waiting. */
    method WatchAsWritten(entries: seq<Option<Entry>>, filters: array<bool>, start: FileTime,
                          subscribe: string -> Option<Handle>, wakes: seq<Wake>)
      returns (outcome: Outcome)
      requires Valid() && |Live(entries)| <= filters.Length && filters != marks
      modifies this, handles, directory, marks, filters
      ensures Valid()
      ensures var t := SyncedAsWritten(old(View()), Live(entries), subscribe);
        if outcome.NothingToWatch? then
          t.recs == [] && View() == t && rearmLog == old(rearmLog) && filters[..] == old(filters[..])
        else
          t.recs != [] && Waited(t, Live(entries), start, wakes, outcome, old(rearmLog), filters, old(filters[..]))
    {
      SyncAsWritten(entries, subscribe);
      if count == 0 {
        return NothingToWatch;
      }
      outcome := Wait(entries, filters, start, wakes);
    }
  }
}
