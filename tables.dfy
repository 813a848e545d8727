/** The registry of monitor.c as one value, what each of its operations does to that
    value, and what the synchronising half of watch leaves in it. */
module Tables {
  import opened Optional
  import opened Paths
  import opened Compaction
  import opened Changes

  /** Capacity of the table. */
  const ENTRIES: nat := 32

  /** The live part of the registry: the records in slot order with their marks, and
      every handle the registry has opened and closed so far, in order. Slots beyond
      the live count are never read, so they are not part of the value. */
  datatype Table = Table(recs: seq<Record>, marks: seq<bool>, opens: seq<Handle>, closes: seq<Handle>)
  {
    predicate Valid()
    {
      |recs| == |marks| <= ENTRIES
    }
  }

  /** Every handle ever opened is either still live in the table or closed, and none
      is closed or live twice over: the registry leaks and double-closes nothing. */
  ghost predicate Accounted(t: Table)
  {
    multiset(t.opens) == multiset(Handles(t.recs)) + multiset(t.closes)
  }

  /** monitor_marks_cleanup: every mark cleared. */
  function Cleared(t: Table): (r: Table)
    requires t.Valid()
    ensures r.Valid() && r.recs == t.recs && r.opens == t.opens && r.closes == t.closes
    ensures forall k :: 0 <= k < |r.marks| ==> !r.marks[k]
  {
    t.(marks := seq(|t.marks|, _ => false))
  }

  /** monitor_add_inner(dir) when FindFirstChangeNotificationA would answer sub: records
      are only ever appended and marks only ever set. */
  function Added(t: Table, dir: string, sub: Option<Handle>): (r: Table)
    requires t.Valid()
    ensures r.Valid() && |t.recs| <= |r.recs| <= |t.recs| + 1 && r.recs[..|t.recs|] == t.recs
    ensures forall k :: 0 <= k < |t.marks| && t.marks[k] ==> r.marks[k]
  {
    var i := Find(t.recs, dir);
    if i >= 0 then t.(marks := t.marks[i := true])
    else if sub.None? then t
    else if |t.recs| >= ENTRIES then t.(opens := t.opens + [sub.value], closes := t.closes + [sub.value])
    else Table(t.recs + [Record(sub.value, Truncate(dir))], t.marks + [true], t.opens + [sub.value], t.closes)
  }

  /** monitor_add_inner applied to each of dirs in turn, every subscription answered by
      `subscribe`. */
  function AddedAll(t: Table, dirs: seq<string>, subscribe: string -> Option<Handle>): (r: Table)
    requires t.Valid()
    ensures r.Valid() && |t.recs| <= |r.recs|
    decreases |dirs|
  {
    if dirs == [] then t
    else
      var last := dirs[|dirs| - 1];
      Added(AddedAll(t, dirs[..|dirs| - 1], subscribe), last, subscribe(last))
  }

  /** monitor_marks_sweep as its comment describes it: the marked records kept in order,
      each still marked, and the others' handles closed in slot order. */
  function Swept(t: Table): (r: Table)
    requires t.Valid()
    ensures r.Valid() && |r.recs| == CountMarked(t.marks, |t.recs|)
    ensures forall k :: 0 <= k < |r.marks| ==> r.marks[k]
  {
    var n := |t.recs|;
    Table(Kept(t.recs, t.marks, n), seq(CountMarked(t.marks, n), _ => true), t.opens,
          t.closes + Dropped(t.recs, t.marks, n))
  }

  /** monitor_marks_sweep as written: the first CountMarked slots of AsWritten, with the
      marks the as-written loops leave there. */
  function SweptAsWritten(t: Table): (r: Table)
    requires t.Valid()
    ensures r.Valid() && |r.recs| == CountMarked(t.marks, |t.recs|)
  {
    var n := |t.recs|;
    var c := CountMarked(t.marks, n);
    Table(AsWritten(t.recs, t.marks, n)[..c], MarksAsWritten(t.marks, n)[..c], t.opens,
          t.closes + Dropped(t.recs, t.marks, n))
  }

  /** monitor_release: every live handle closed in slot order, the table emptied. */
  function Released(t: Table): (r: Table)
    requires t.Valid()
    ensures r.Valid() && r.recs == [] && r.opens == t.opens && r.closes == t.closes + Handles(t.recs)
  {
    Table([], [], t.opens, t.closes + Handles(t.recs))
  }

  /** The registration of watch: marks cleared, then the directories of every live
      entry added in order. */
  function Registered(t: Table, live: seq<Entry>, subscribe: string -> Option<Handle>): (r: Table)
    requires t.Valid()
    ensures r.Valid() && |t.recs| <= |r.recs|
  {
    AddedAll(Cleared(t), AllWanted(live, |live|), subscribe)
  }

  /** The first half of watch: marks cleared, the directories of every live entry
      added in order, then the sweep. */
  function Synced(t: Table, live: seq<Entry>, subscribe: string -> Option<Handle>): (r: Table)
    requires t.Valid()
    ensures r.Valid()
  {
    Swept(Registered(t, live, subscribe))
  }

  /** The first half of watch as the source writes it: the same registration, then the
      sweep as written. It opens and closes the same handles as Synced and leaves as
      many records; only the records and marks left in the live slots can differ. */
  function SyncedAsWritten(t: Table, live: seq<Entry>, subscribe: string -> Option<Handle>): (r: Table)
    requires t.Valid()
    ensures r.Valid()
    ensures var s := Synced(t, live, subscribe);
      |r.recs| == |s.recs| && r.opens == s.opens && r.closes == s.closes
  {
    SweptAsWritten(Registered(t, live, subscribe))
  }

  // Which directories the synchronisation watches.

  /** Every marked record of t watches one of ds. */
  ghost predicate MarkedIn(t: Table, ds: seq<string>)
    requires t.Valid()
  {
    forall k :: 0 <= k < |t.recs| && t.marks[k] ==> t.recs[k].dir in ds
  }

  /** d is watched by a marked record, or its subscription fails, or the table is full. */
  ghost predicate Covered(t: Table, d: string, sub: Option<Handle>)
    requires t.Valid()
  {
    var i := Find(t.recs, d);
    (i >= 0 && t.marks[i]) || sub.None? || |t.recs| == ENTRIES
  }

  /** Every directory of ds is covered. */
  ghost predicate CoversAll(t: Table, ds: seq<string>, subscribe: string -> Option<Handle>)
    requires t.Valid()
  {
    forall d :: d in ds ==> Covered(t, d, subscribe(d))
  }

  /** A first match survives appending. */
  lemma FindExtended(recs: seq<Record>, more: seq<Record>, d: string)
    requires |recs| <= |more| && more[..|recs|] == recs && Find(recs, d) >= 0
    ensures Find(more, d) == Find(recs, d)
  {
    var i := Find(recs, d);
    assert more[i] == recs[i];
    forall k | 0 <= k < i
      ensures more[k].dir != d
    {
      assert more[k] == recs[k];
    }
    FindFirst(more, d, i);
  }

  /** The record an add marks watches the directory added. */
  lemma AddedMarkedIn(t: Table, ds: seq<string>, dir: string, sub: Option<Handle>)
    requires t.Valid() && MarkedIn(t, ds) && |dir| < DIR_MAXPATH
    ensures MarkedIn(Added(t, dir, sub), ds + [dir])
  {
  }

  /** An add covers its own directory and keeps every other one covered. */
  lemma AddedCovers(t: Table, ds: seq<string>, dir: string, subscribe: string -> Option<Handle>)
    requires t.Valid() && CoversAll(t, ds, subscribe) && |dir| < DIR_MAXPATH
    ensures CoversAll(Added(t, dir, subscribe(dir)), ds + [dir], subscribe)
  {
    var r := Added(t, dir, subscribe(dir));
    forall d | d in ds + [dir]
      ensures Covered(r, d, subscribe(d))
    {
      var f := Find(t.recs, d);
      if f >= 0 && t.marks[f] {
        FindExtended(t.recs, r.recs, d);
      } else if d == dir && f < 0 && subscribe(dir).Some? && |t.recs| < ENTRIES {
        FindNone(t.recs, dir);
        FindFirst(r.recs, dir, |t.recs|);
      }
    }
  }

  /** Adding a sequence of directories marks only records watching one of them. */
  lemma {:induction false} AddedAllMarkedIn(t: Table, ds: seq<string>, dirs: seq<string>,
                                            subscribe: string -> Option<Handle>)
    requires t.Valid() && MarkedIn(t, ds) && forall k :: 0 <= k < |dirs| ==> |dirs[k]| < DIR_MAXPATH
    ensures MarkedIn(AddedAll(t, dirs, subscribe), ds + dirs)
    decreases |dirs|
  {
    if dirs != [] {
      var init, last := dirs[..|dirs| - 1], dirs[|dirs| - 1];
      AddedAllMarkedIn(t, ds, init, subscribe);
      AddedMarkedIn(AddedAll(t, init, subscribe), ds + init, last, subscribe(last));
      assert ds + init + [last] == ds + dirs;
    }
  }

  /** Adding a sequence of directories covers each of them and keeps earlier ones covered. */
  lemma {:induction false} AddedAllCovers(t: Table, ds: seq<string>, dirs: seq<string>,
                                          subscribe: string -> Option<Handle>)
    requires t.Valid() && CoversAll(t, ds, subscribe) && forall k :: 0 <= k < |dirs| ==> |dirs[k]| < DIR_MAXPATH
    ensures CoversAll(AddedAll(t, dirs, subscribe), ds + dirs, subscribe)
    decreases |dirs|
  {
    if dirs != [] {
      var init, last := dirs[..|dirs| - 1], dirs[|dirs| - 1];
      AddedAllCovers(t, ds, init, subscribe);
      AddedCovers(AddedAll(t, init, subscribe), ds + init, last, subscribe);
      assert ds + init + [last] == ds + dirs;
    }
  }

  /** A prefix of a prefix is a prefix. */
  lemma PrefixOfPrefix(a: seq<Record>, b: seq<Record>, c: seq<Record>)
    requires |a| <= |b| <= |c| && b[..|a|] == a && c[..|b|] == b
    ensures c[..|a|] == a
  {
    assert c[..|a|] == c[..|b|][..|a|];
  }

  /** Adding a sequence of directories leaves the records it started with in place. */
  lemma {:induction false} AddedAllKeeps(t: Table, dirs: seq<string>, subscribe: string -> Option<Handle>)
    requires t.Valid()
    ensures AddedAll(t, dirs, subscribe).recs[..|t.recs|] == t.recs
    decreases |dirs|
  {
    if dirs != [] {
      var init := dirs[..|dirs| - 1];
      AddedAllKeeps(t, init, subscribe);
      PrefixOfPrefix(t.recs, AddedAll(t, init, subscribe).recs, AddedAll(t, dirs, subscribe).recs);
    }
  }

  /** Adding a then b is adding a + b: registration entry by entry is one fold over
      all the wanted directories. */
  lemma {:induction false} AddedAllConcat(t: Table, a: seq<string>, b: seq<string>,
                                          subscribe: string -> Option<Handle>)
    requires t.Valid()
    ensures AddedAll(AddedAll(t, a, subscribe), b, subscribe) == AddedAll(t, a + b, subscribe)
    decreases |b|
  {
    if b == [] {
      assert a + b == a;
    } else {
      var init := b[..|b| - 1];
      AddedAllConcat(t, a, init, subscribe);
      assert (a + b)[..|a + b| - 1] == a + init;
    }
  }

  /** After registration, the sweep keeps the marked records: every live record watches
      one of ds, and every directory of ds is watched unless its subscription failed or
      the table is full. */
  lemma SweptWatches(t: Table, ds: seq<string>, subscribe: string -> Option<Handle>)
    requires t.Valid() && MarkedIn(t, ds) && CoversAll(t, ds, subscribe)
    ensures var r := Swept(t);
      (forall k :: 0 <= k < |r.recs| ==> r.recs[k].dir in ds)
      && forall d :: d in ds ==> Find(r.recs, d) >= 0 || subscribe(d).None? || |t.recs| == ENTRIES
  {
    var n := |t.recs|;
    var kept := Kept(t.recs, t.marks, n);
    KeptAt(t.recs, t.marks, n);
    forall k | 0 <= k < |kept|
      ensures kept[k].dir in ds
    {
      assert kept[k] in kept;
      var p :| 0 <= p < n && t.marks[p] && t.recs[p] == kept[k];
    }
    forall d | d in ds && subscribe(d).Some? && n < ENTRIES
      ensures Find(kept, d) >= 0
    {
      assert Covered(t, d, subscribe(d));
      var f := Find(t.recs, d);
      assert kept[CountMarked(t.marks, f)].dir == d;
    }
  }

  /** What the synchronisation watches: every live record's directory was requested
      by a non-empty path of a live entry, and every requested directory is watched
      unless its subscription failed or registration filled the table. Records that
      were live before are never moved by registration. */
  lemma SyncedWatches(t: Table, live: seq<Entry>, subscribe: string -> Option<Handle>)
    requires t.Valid()
    ensures var r := AddedAll(Cleared(t), AllWanted(live, |live|), subscribe);
      var s := Synced(t, live, subscribe);
      r.recs[..|t.recs|] == t.recs
      && (forall k :: 0 <= k < |s.recs| ==> Requested(live, s.recs[k].dir))
      && forall d :: Requested(live, d) ==> Find(s.recs, d) >= 0 || subscribe(d).None? || |r.recs| == ENTRIES
  {
    var c := Cleared(t);
    var dirs := AllWanted(live, |live|);
    var r := AddedAll(c, dirs, subscribe);
    AllWantedShort(live, |live|);
    AddedAllKeeps(c, dirs, subscribe);
    AddedAllMarkedIn(c, [], dirs, subscribe);
    AddedAllCovers(c, [], dirs, subscribe);
    assert [] + dirs == dirs;
    SweptWatches(r, dirs, subscribe);
    forall d
      ensures d in AllWanted(live, |live|) <==> Requested(live, d)
    {
      AllWantedRequested(live, |live|, d);
    }
  }

  // Distinctness and handle accounting.

  /** Adding a directory short enough to be kept whole keeps directories distinct. */
  lemma AddedDistinct(t: Table, dir: string, sub: Option<Handle>)
    requires t.Valid() && DistinctDirs(t.recs) && |dir| < DIR_MAXPATH
    ensures DistinctDirs(Added(t, dir, sub).recs)
  {
    if Find(t.recs, dir) < 0 && sub.Some? && |t.recs| < ENTRIES {
      AppendDistinct(t.recs, Record(sub.value, dir));
    }
  }

  /** Setting a mark that is already set changes nothing. */
  lemma MarkAgain(marks: seq<bool>, i: int)
    requires 0 <= i < |marks| && marks[i]
    ensures marks[i := true] == marks
  {
  }

  /** Adding a directory the table already holds only sets its mark. */
  lemma AddedFound(t: Table, dir: string, sub: Option<Handle>)
    requires t.Valid() && Find(t.recs, dir) >= 0
    ensures Added(t, dir, sub) == t.(marks := t.marks[Find(t.recs, dir) := true])
  {
  }

  /** Adding a new directory that is subscribed while there is room appends it, marked. */
  lemma AddedNew(t: Table, dir: string, h: Handle)
    requires t.Valid() && Find(t.recs, dir) < 0 && |t.recs| < ENTRIES && |dir| < DIR_MAXPATH
    ensures var r := Added(t, dir, Some(h));
      r.recs == t.recs + [Record(h, dir)] && r.marks == t.marks + [true]
      && Find(r.recs, dir) == |t.recs|
  {
    var r := Added(t, dir, Some(h));
    assert r.recs == t.recs + [Record(h, dir)];
    forall k | 0 <= k < |t.recs|
      ensures r.recs[k].dir != dir
    {
      assert r.recs[k] == t.recs[k];
    }
    FindFirst(r.recs, dir, |t.recs|);
  }

  /** When the first add finds the directory or stores it, a second add of the same
      directory only sets the mark it already has, so it changes nothing. */
  lemma AddedTwice(t: Table, dir: string, sub: Option<Handle>, again: Option<Handle>)
    requires t.Valid() && |dir| < DIR_MAXPATH
    requires Find(t.recs, dir) >= 0 || (sub.Some? && |t.recs| < ENTRIES)
    ensures Added(Added(t, dir, sub), dir, again) == Added(t, dir, sub)
  {
    var r := Added(t, dir, sub);
    var f := Find(t.recs, dir);
    var i;
    if f >= 0 {
      AddedFound(t, dir, sub);
      i := f;
    } else {
      AddedNew(t, dir, sub.value);
      i := |t.recs|;
    }
    assert Find(r.recs, dir) == i && r.marks[i];
    MarkAgain(r.marks, i);
    AddedFound(r, dir, again);
  }

  /** What an add does to the table, by case: it stores a record exactly when the
      directory is new, subscribed and there is room; it opens a handle exactly when the
      directory is new and subscribed; it closes one exactly when that handle finds the
      table full, and then the records and marks are unchanged; a failed subscription
      of a new directory changes nothing at all. */
  lemma AddedEffects(t: Table, dir: string, sub: Option<Handle>)
    requires t.Valid()
    ensures var r := Added(t, dir, sub); var unseen := Find(t.recs, dir) < 0;
      (|r.recs| == |t.recs| + 1 <==> unseen && sub.Some? && |t.recs| < ENTRIES)
      && (|r.opens| == |t.opens| + 1 <==> unseen && sub.Some?)
      && (|r.opens| == |t.opens| || |r.opens| == |t.opens| + 1)
      && (|r.closes| == |t.closes| + 1 <==> unseen && sub.Some? && |t.recs| >= ENTRIES)
      && (|r.closes| == |t.closes| || |r.closes| == |t.closes| + 1)
      && (unseen && sub.Some? && |t.recs| >= ENTRIES ==>
            r.recs == t.recs && r.marks == t.marks && r.opens == t.opens + [sub.value] && r.closes == t.closes + [sub.value])
      && (unseen && sub.None? ==> r == t)
  {
  }

  /** Release of an empty table changes nothing. */
  lemma ReleasedEmpty(t: Table)
    requires t.Valid() && t.recs == []
    ensures Released(t) == t
  {
  }

  /** Adding a sequence of directories short enough to be kept whole keeps directories
      distinct. */
  lemma {:induction false} AddedAllDistinct(t: Table, dirs: seq<string>, subscribe: string -> Option<Handle>)
    requires t.Valid() && DistinctDirs(t.recs) && forall k :: 0 <= k < |dirs| ==> |dirs[k]| < DIR_MAXPATH
    ensures DistinctDirs(AddedAll(t, dirs, subscribe).recs)
    decreases |dirs|
  {
    if dirs != [] {
      var init, last := dirs[..|dirs| - 1], dirs[|dirs| - 1];
      AddedAllDistinct(t, init, subscribe);
      AddedDistinct(AddedAll(t, init, subscribe), last, subscribe(last));
    }
  }

  /** The synchronisation never watches a directory twice. */
  lemma SyncedDistinct(t: Table, live: seq<Entry>, subscribe: string -> Option<Handle>)
    requires t.Valid() && DistinctDirs(t.recs)
    ensures DistinctDirs(Synced(t, live, subscribe).recs)
  {
    var r := AddedAll(Cleared(t), AllWanted(live, |live|), subscribe);
    AllWantedShort(live, |live|);
    AddedAllDistinct(Cleared(t), AllWanted(live, |live|), subscribe);
    KeptDistinct(r.recs, r.marks, |r.recs|);
  }

  /** The handles of an extended table. */
  lemma HandlesAppend(recs: seq<Record>, r: Record)
    ensures Handles(recs + [r]) == Handles(recs) + [r.handle]
  {
  }

  /** The kept records' handles and the dropped ones together are the table's handles. */
  lemma {:induction false} KeptDroppedHandles(recs: seq<Record>, marks: seq<bool>, n: nat)
    requires |recs| == |marks| && n <= |recs|
    ensures multiset(Handles(recs[..n])) == multiset(Handles(Kept(recs, marks, n))) + multiset(Dropped(recs, marks, n))
  {
    if n == 0 {
      assert recs[..0] == [];
      assert Handles(recs[..0]) == [] && Kept(recs, marks, 0) == [] && Dropped(recs, marks, 0) == [];
    } else {
      var m := n - 1;
      var r := recs[m];
      var kept, dropped := Kept(recs, marks, m), Dropped(recs, marks, m);
      KeptDroppedHandles(recs, marks, m);
      assert recs[..n] == recs[..m] + [r];
      HandlesAppend(recs[..m], r);
      assert Handles(recs[..n]) == Handles(recs[..m]) + [r.handle];
      BalanceStep(Handles(recs[..m]), Handles(kept), dropped, r.handle);
      if marks[m] {
        assert Kept(recs, marks, n) == kept + [r];
        assert Dropped(recs, marks, n) == dropped;
        HandlesAppend(kept, r);
        assert multiset(Handles(recs[..n])) == multiset(Handles(kept) + [r.handle]) + multiset(dropped);
      } else {
        assert Kept(recs, marks, n) == kept;
        assert Dropped(recs, marks, n) == dropped + [r.handle];
        assert multiset(Handles(recs[..n])) == multiset(Handles(kept)) + multiset(dropped + [r.handle]);
      }
    }
  }

  /** One more handle on the left balances one more on either side of the right. */
  lemma BalanceStep(all: seq<Handle>, kept: seq<Handle>, dropped: seq<Handle>, h: Handle)
    requires multiset(all) == multiset(kept) + multiset(dropped)
    ensures multiset(all + [h]) == multiset(kept + [h]) + multiset(dropped)
    ensures multiset(all + [h]) == multiset(kept) + multiset(dropped + [h])
  {
  }

  /** Adding keeps every handle accounted for. */
  lemma AddedAccounted(t: Table, dir: string, sub: Option<Handle>)
    requires t.Valid() && Accounted(t)
    ensures Accounted(Added(t, dir, sub))
  {
    var r := Added(t, dir, sub);
    if Find(t.recs, dir) < 0 && sub.Some? {
      var h := sub.value;
      assert multiset(t.opens + [h]) == multiset(t.opens) + multiset{h};
      if |t.recs| < ENTRIES {
        HandlesAppend(t.recs, Record(h, Truncate(dir)));
        assert multiset(Handles(t.recs) + [h]) == multiset(Handles(t.recs)) + multiset{h};
      } else {
        assert multiset(t.closes + [h]) == multiset(t.closes) + multiset{h};
      }
    }
  }


  /** The sweep closes every handle it drops, so the accounting still balances. */
  lemma SweptAccounted(t: Table)
    requires t.Valid() && Accounted(t)
    ensures Accounted(Swept(t))
  {
    KeptDroppedHandles(t.recs, t.marks, |t.recs|);
    assert t.recs[..|t.recs|] == t.recs;
  }

  /** Release closes every live handle, so the accounting still balances. */
  lemma ReleasedAccounted(t: Table)
    requires t.Valid() && Accounted(t)
    ensures Accounted(Released(t))
  {
  }

  /** Adding a sequence of directories keeps every handle accounted for. */
  lemma {:induction false} AddedAllAccounted(t: Table, dirs: seq<string>, subscribe: string -> Option<Handle>)
    requires t.Valid() && Accounted(t)
    ensures Accounted(AddedAll(t, dirs, subscribe))
    decreases |dirs|
  {
    if dirs != [] {
      var init, last := dirs[..|dirs| - 1], dirs[|dirs| - 1];
      AddedAllAccounted(t, init, subscribe);
      AddedAccounted(AddedAll(t, init, subscribe), last, subscribe(last));
    }
  }

  /** The synchronisation leaks no handle and closes none twice. */
  lemma SyncedAccounted(t: Table, live: seq<Entry>, subscribe: string -> Option<Handle>)
    requires t.Valid() && Accounted(t)
    ensures Accounted(Synced(t, live, subscribe))
  {
    AddedAllAccounted(Cleared(t), AllWanted(live, |live|), subscribe);
    SweptAccounted(AddedAll(Cleared(t), AllWanted(live, |live|), subscribe));
  }

  // The synchronisation as written.

  /** Where no two marked records are adjacent after a gap, the sweep as written leaves
      exactly the table of the comment's sweep. */
  lemma SweptAsWrittenStable(t: Table)
    requires t.Valid() && AdjacentOnlyBeforeGap(t.marks)
    ensures SweptAsWritten(t) == Swept(t)
  {
    var n := |t.recs|;
    var c := CountMarked(t.marks, n);
    AsWrittenStable(t.recs, t.marks, n);
    MarksAsWrittenStable(t.marks, n);
    assert MarksAsWritten(t.marks, n)[..c] == seq(c, _ => true);
  }

  /** When registration leaves no two marked records adjacent after a gap, watch as
      written synchronises to Synced, so SyncedWatches, SyncedDistinct and
      SyncedAccounted hold of it. */
  lemma SyncedAsWrittenStable(t: Table, live: seq<Entry>, subscribe: string -> Option<Handle>)
    requires t.Valid() && AdjacentOnlyBeforeGap(Registered(t, live, subscribe).marks)
    ensures SyncedAsWritten(t, live, subscribe) == Synced(t, live, subscribe)
  {
    SweptAsWrittenStable(Registered(t, live, subscribe));
  }

  /** Marks [1, 0, 1, 1] over handles 1 to 4: the sweep as written keeps handle 3 twice
      and loses handle 4, which is then neither live nor closed. */
  lemma SweptAsWrittenLeaks()
    ensures var t := Table([Record(1, "A"), Record(2, "B"), Record(3, "C"), Record(4, "D")],
                           [true, false, true, true], [1, 2, 3, 4], []);
      var r := SweptAsWritten(t);
      Accounted(t) && Handles(r.recs) == [1, 3, 3] && r.closes == [2] && !Accounted(r)
  {
    var recs := [Record(1, "A"), Record(2, "B"), Record(3, "C"), Record(4, "D")];
    var t := Table(recs, [true, false, true, true], [1, 2, 3, 4], []);
    AsWrittenCounterexample();
    var r := SweptAsWritten(t);
    assert r.recs == [recs[0], recs[2], recs[2]] && r.closes == [2];
    assert Handles(recs) == [1, 2, 3, 4];
    assert Handles(r.recs) == [1, 3, 3];
    assert 4 in multiset(r.opens) && 4 !in multiset(Handles(r.recs)) + multiset(r.closes);
  }

  /** Marks [1, 0, 0, 1, 1] over handles 1 to 5: the sweep as written leaves the records
      of 1, 4 and 3, the last unmarked. Handle 3 is closed and still live, and handle 5
      is neither. */
  lemma SweptAsWrittenClosesLive()
    ensures var t := Table([Record(1, "A"), Record(2, "B"), Record(3, "C"), Record(4, "D"), Record(5, "E")],
                           [true, false, false, true, true], [1, 2, 3, 4, 5], []);
      var r := SweptAsWritten(t);
      r.recs == [t.recs[0], t.recs[3], t.recs[2]] && r.marks == [true, true, false]
      && r.closes == [2, 3] && 3 in Handles(r.recs) && 5 !in Handles(r.recs)
  {
    var recs := [Record(1, "A"), Record(2, "B"), Record(3, "C"), Record(4, "D"), Record(5, "E")];
    var marks := [true, false, false, true, true];
    assert CountMarked(marks, 3) == 1 && CountMarked(marks, 5) == 3;
    assert AsWritten(recs, marks, 3) == recs;
    assert Moved(marks, 3) && !Moved(marks, 4);
    assert AsWritten(recs, marks, 5) == [recs[0], recs[3], recs[2], recs[3], recs[4]];
    assert MarksAsWritten(marks, 3) == marks;
    assert MarksAsWritten(marks, 5) == [true, true, false, true, true];
    assert Dropped(recs, marks, 3) == [2, 3];
    assert Handles([recs[0], recs[3], recs[2]]) == [1, 4, 3];
  }

  /** The entry of SyncedAsWrittenLeaks wants A, C and D, in that order. */
  lemma LeakWanted()
    ensures AllWanted([["A/x", "C/y", "D/z"]], 1) == ["A", "C", "D"]
  {
    var e := ["A/x", "C/y", "D/z"];
    ScanBackStops("A/x", 2, 1);
    ScanBackStops("C/y", 2, 1);
    ScanBackStops("D/z", 2, 1);
    assert DirectoryOf("A/x") == "A" && DirectoryOf("C/y") == "C" && DirectoryOf("D/z") == "D";
    assert Wanted(e, 1) == ["A"];
    assert Wanted(e, 2) == ["A", "C"];
    assert Wanted(e, 3) == ["A", "C", "D"];
  }

  /** In a table watching A, B and C, the dedupe scan finds A at 0 and C at 2, and not D. */
  lemma LeakFound()
    ensures var recs := [Record(1, "A"), Record(2, "B"), Record(3, "C")];
      Find(recs, "A") == 0 && Find(recs, "C") == 2 && Find(recs, "D") == -1
  {
    var recs := [Record(1, "A"), Record(2, "B"), Record(3, "C")];
    FindFirst(recs, "A", 0);
    assert recs[0].dir != "C" && recs[1].dir != "C";
    FindFirst(recs, "C", 2);
    assert forall k :: 0 <= k < 3 ==> recs[k].dir != "D";
    FindNone(recs, "D");
  }

  /** Adding A, C and D to a table watching A, B and C, none marked, finds A and C and
      appends D: the marks become [1, 0, 1, 1]. */
  lemma LeakAdded(subscribe: string -> Option<Handle>)
    requires subscribe("D") == Some(4)
    ensures var t := Table([Record(1, "A"), Record(2, "B"), Record(3, "C")], [false, false, false], [1, 2, 3], []);
      AddedAll(t, ["A", "C", "D"], subscribe)
      == Table([Record(1, "A"), Record(2, "B"), Record(3, "C"), Record(4, "D")], [true, false, true, true], [1, 2, 3, 4], [])
  {
    var t := Table([Record(1, "A"), Record(2, "B"), Record(3, "C")], [false, false, false], [1, 2, 3], []);
    LeakFound();
    var t1 := t.(marks := [true, false, false]);
    var t2 := t.(marks := [true, false, true]);
    assert Added(t, "A", subscribe("A")) == t1;
    assert Added(t1, "C", subscribe("C")) == t2;
    assert Truncate("D") == "D";
    assert Added(t2, "D", subscribe("D")) == Table(t.recs + [Record(4, "D")], t2.marks + [true], t.opens + [4], []);
    assert ["A", "C", "D"][..2] == ["A", "C"] && ["A", "C"][..1] == ["A"] && ["A"][..0] == [];
    assert AddedAll(t, ["A"], subscribe) == t1;
    assert AddedAll(t, ["A", "C"], subscribe) == t2;
  }

  /** The table of SyncedAsWrittenLeaks accounts for every handle it opened. */
  lemma LeakStart()
    ensures Accounted(Table([Record(1, "A"), Record(2, "B"), Record(3, "C")], [false, false, false], [1, 2, 3], []))
  {
    assert Handles([Record(1, "A"), Record(2, "B"), Record(3, "C")]) == [1, 2, 3];
  }

  /** Registration of that entry against that table leaves the marks [1, 0, 1, 1]. */
  lemma LeakRegistered(subscribe: string -> Option<Handle>)
    requires subscribe("D") == Some(4)
    ensures Registered(Table([Record(1, "A"), Record(2, "B"), Record(3, "C")], [false, false, false], [1, 2, 3], []),
                       [["A/x", "C/y", "D/z"]], subscribe)
      == Table([Record(1, "A"), Record(2, "B"), Record(3, "C"), Record(4, "D")], [true, false, true, true], [1, 2, 3, 4], [])
  {
    var t := Table([Record(1, "A"), Record(2, "B"), Record(3, "C")], [false, false, false], [1, 2, 3], []);
    var live := [["A/x", "C/y", "D/z"]];
    LeakWanted();
    assert AllWanted(live, |live|) == ["A", "C", "D"];
    assert Cleared(t).marks == t.marks;
    LeakAdded(subscribe);
  }

  /** The leak is reachable from watch: a table watching A, B and C, and one entry whose
      files live in A, C and a new D. Registration leaves the marks [1, 0, 1, 1], so
      watch as written loses the new handle, where Synced accounts for every handle. */
  lemma SyncedAsWrittenLeaks(subscribe: string -> Option<Handle>)
    requires subscribe("D") == Some(4)
    ensures var t := Table([Record(1, "A"), Record(2, "B"), Record(3, "C")], [false, false, false], [1, 2, 3], []);
      var live := [["A/x", "C/y", "D/z"]];
      Accounted(t) && !Accounted(SyncedAsWritten(t, live, subscribe)) && Accounted(Synced(t, live, subscribe))
  {
    LeakStart();
    LeakRegistered(subscribe);
    SweptAsWrittenLeaks();
    SyncedAccounted(Table([Record(1, "A"), Record(2, "B"), Record(3, "C")], [false, false, false], [1, 2, 3], []),
                    [["A/x", "C/y", "D/z"]], subscribe);
  }
}
