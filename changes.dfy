/** The entries a watch call is given and how a wake-up is classified against them. */
module Changes {
  import opened Optional
  import opened Paths

  type Path = string

  /** A primary file followed by the files it depends on. */
  type Entry = seq<Path>

  /** A FILETIME, as one unbounded count. */
  type FileTime = nat

  /** The last-write times GetFileAttributesExA can read at one moment; a path that is
      not a key is one whose attributes cannot be read. */
  type Times = map<Path, FileTime>

  /** The entries before the first null one; the rest are never looked at. */
  function Live(entries: seq<Option<Entry>>): (live: seq<Entry>)
    ensures |live| <= |entries|
    ensures forall i :: 0 <= i < |live| ==> entries[i] == Some(live[i])
    ensures |live| < |entries| ==> entries[|live|] == None
  {
    if entries == [] then []
    else match entries[0]
      case None => []
      case Some(e) => [e] + Live(entries[1..])
  }

  /** Some non-empty path of the entry lives in directory d. */
  ghost predicate Wants(entry: Entry, d: string)
  {
    exists j :: 0 <= j < |entry| && entry[j] != "" && DirectoryOf(entry[j]) == d
  }

  /** Some live entry wants directory d. */
  ghost predicate Requested(live: seq<Entry>, d: string)
  {
    exists i :: 0 <= i < |live| && Wants(live[i], d)
  }

  /** The directories monitor_add derives for the non-empty paths among entry[..j], in
      the order the registration loop of watch adds them. */
  function Wanted(entry: Entry, j: nat): (dirs: seq<string>)
    requires j <= |entry|
    ensures |dirs| <= j
  {
    if j == 0 then []
    else if entry[j - 1] == "" then Wanted(entry, j - 1)
    else Wanted(entry, j - 1) + [DirectoryOf(entry[j - 1])]
  }

  /** The directories added for the first i live entries, in order. */
  function AllWanted(live: seq<Entry>, i: nat): (dirs: seq<string>)
    requires i <= |live|
  {
    if i == 0 then [] else AllWanted(live, i - 1) + Wanted(live[i - 1], |live[i - 1]|)
  }

  /** Every directory wanted is one monitor_add can store whole. */
  lemma {:induction false} WantedShort(entry: Entry, j: nat)
    requires j <= |entry|
    ensures forall k :: 0 <= k < |Wanted(entry, j)| ==> 0 < |Wanted(entry, j)[k]| < DIR_MAXPATH
  {
    if j > 0 {
      WantedShort(entry, j - 1);
    }
  }

  /** Every directory wanted by the live entries is one monitor_add can store whole. */
  lemma {:induction false} AllWantedShort(live: seq<Entry>, i: nat)
    requires i <= |live|
    ensures forall k :: 0 <= k < |AllWanted(live, i)| ==> 0 < |AllWanted(live, i)[k]| < DIR_MAXPATH
  {
    if i > 0 {
      AllWantedShort(live, i - 1);
      WantedShort(live[i - 1], |live[i - 1]|);
    }
  }

  /** A directory is added for entry[..j] exactly when one of its non-empty paths lives
      in it. */
  lemma {:induction false} WantedMember(entry: Entry, j: nat, d: string)
    requires j <= |entry|
    ensures d in Wanted(entry, j) <==> exists k :: 0 <= k < j && entry[k] != "" && DirectoryOf(entry[k]) == d
  {
    if j > 0 {
      WantedMember(entry, j - 1, d);
      var p := entry[j - 1];
      var before := Wanted(entry, j - 1);
      if d in before {
        var k :| 0 <= k < j - 1 && entry[k] != "" && DirectoryOf(entry[k]) == d;
        assert 0 <= k < j && entry[k] != "" && DirectoryOf(entry[k]) == d;
      } else if p != "" && DirectoryOf(p) == d {
        assert 0 <= j - 1 < j && entry[j - 1] != "" && DirectoryOf(entry[j - 1]) == d;
      } else {
        assert d !in Wanted(entry, j);
      }
    }
  }

  /** A directory is added for the first i live entries exactly when one of them wants it. */
  lemma {:induction false} AllWantedRequested(live: seq<Entry>, i: nat, d: string)
    requires i <= |live|
    ensures d in AllWanted(live, i) <==> exists a :: 0 <= a < i && Wants(live[a], d)
  {
    if i > 0 {
      AllWantedRequested(live, i - 1, d);
      var e := live[i - 1];
      WantedMember(e, |e|, d);
      if d in AllWanted(live, i - 1) {
        var a :| 0 <= a < i - 1 && Wants(live[a], d);
        assert 0 <= a < i && Wants(live[a], d);
      } else if d in Wanted(e, |e|) {
        assert 0 <= i - 1 < i && Wants(live[i - 1], d);
      } else {
        forall a | 0 <= a < i
          ensures !Wants(live[a], d)
        {
          if a == i - 1 {
            assert !Wants(e, d);
          }
        }
      }
    }
  }

  /** The path is readable and was written strictly after the call started. */
  predicate Newer(path: Path, times: Times, start: FileTime)
  {
    path != "" && path in times && times[path] > start
  }

  /** The skip rules of the scan: an empty or unreadable path never counts, and a
      readable one counts exactly when its last write is strictly after the start. */
  lemma NewerSkips(path: Path, times: Times, start: FileTime)
    ensures path == "" || path !in times ==> !Newer(path, times, start)
    ensures path != "" && path in times ==> (Newer(path, times, start) <==> times[path] > start)
  {
  }

  /** Some member of the entry was written after the call started. */
  ghost predicate EntryChanged(entry: Entry, times: Times, start: FileTime)
  {
    exists j :: 0 <= j < |entry| && Newer(entry[j], times, start)
  }

  /** Some live entry changed. */
  ghost predicate AnyChanged(live: seq<Entry>, times: Times, start: FileTime)
  {
    exists i :: 0 <= i < |live| && EntryChanged(live[i], times, start)
  }

  /** The scan of one entry: empty paths and unreadable ones are skipped, and the
      first path newer than the start ends it. */
  method ScanEntry(entry: Entry, times: Times, start: FileTime) returns (hit: int)
    ensures -1 <= hit < |entry|
    ensures hit >= 0 <==> EntryChanged(entry, times, start)
    ensures hit >= 0 ==> Newer(entry[hit], times, start)
    ensures forall j :: 0 <= j < |entry| && (hit < 0 || j < hit) ==> !Newer(entry[j], times, start)
  {
    hit := -1;
    var j := 0;
    while j < |entry|
      invariant 0 <= j <= |entry|
      invariant forall k :: 0 <= k < j ==> !Newer(entry[k], times, start)
    {
      var path := entry[j];
      if |path| == 0 {
        j := j + 1;
        continue;
      }
      if path !in times {
        j := j + 1;
        continue;
      }
      if times[path] > start {
        hit := j;
        return;
      }
      j := j + 1;
    }
  }

  /** The comparison loop of watch: the filter of each live entry is cleared, then set
      when one of its files was written after the start; the loop stops at the first
      null entry, and `found` tells whether any filter was set. */
  method ClassifyAll(entries: seq<Option<Entry>>, filters: array<bool>, times: Times, start: FileTime)
    returns (found: bool)
    requires |Live(entries)| <= filters.Length
    modifies filters
    ensures var live := Live(entries);
      (forall i :: 0 <= i < |live| ==> filters[i] == EntryChanged(live[i], times, start))
      && (forall i :: |live| <= i < filters.Length ==> filters[i] == old(filters[i]))
      && (found <==> AnyChanged(live, times, start))
  {
    ghost var live := Live(entries);
    found := false;
    var i := 0;
    while i < |entries|
      invariant 0 <= i <= |live|
      invariant forall k :: 0 <= k < i ==> filters[k] == EntryChanged(live[k], times, start)
      invariant forall k :: i <= k < filters.Length ==> filters[k] == old(filters[k])
      invariant found <==> exists k :: 0 <= k < i && EntryChanged(live[k], times, start)
    {
      if entries[i].None? {
        break;
      }
      assert i < |live| && entries[i] == Some(live[i]);
      var entry := entries[i].value;
      ghost var prev := filters[..];
      filters[i] := false;
      var hit := ScanEntry(entry, times, start);
      if hit >= 0 {
        found := true;
        filters[i] := true;
      }
      assert filters[..] == prev[i := EntryChanged(live[i], times, start)];
      i := i + 1;
    }
    assert i == |live|;
  }

  /** A dependency written after the start flags its entry even when the primary file
      is unchanged. */
  lemma DependencyFlagsEntry(start: FileTime, primary: FileTime)
    requires primary <= start
    ensures var times := map["dark.hss" := primary, "_vars.hss" := start + 1];
      EntryChanged(["dark.hss", "_vars.hss"], times, start)
  {
    var times := map["dark.hss" := primary, "_vars.hss" := start + 1];
    assert Newer(["dark.hss", "_vars.hss"][1], times, start);
  }

  /** Entries [["a.txt"], ["b.txt", "c.txt"]] with only c.txt touched after the start
      classify as [false, true], and a file missing is skipped. */
  lemma TouchOneFile(start: FileTime, b: FileTime)
    requires b <= start
    ensures var times := map["b.txt" := b, "c.txt" := start + 1];
      !EntryChanged(["a.txt"], times, start)
      && EntryChanged(["b.txt", "c.txt"], times, start)
  {
    var times := map["b.txt" := b, "c.txt" := start + 1];
    assert Newer(["b.txt", "c.txt"][1], times, start);
    assert !Newer(["a.txt"][0], times, start);
  }

  /** A write at the start time itself, or an entry of empty paths, never counts. */
  lemma NotAfterStart(entry: Entry, times: Times, start: FileTime)
    requires forall j :: 0 <= j < |entry| && entry[j] in times ==> times[entry[j]] <= start
    ensures !EntryChanged(entry, times, start)
  {
  }

  /** The live entries are exactly the ones before the first null. */
  lemma {:induction false} LiveEntries(entries: seq<Option<Entry>>, n: nat)
    requires n <= |entries|
    requires forall i :: 0 <= i < n ==> entries[i].Some?
    requires n == |entries| || entries[n].None?
    ensures Live(entries) == seq(n, i requires 0 <= i < n => entries[i].value)
  {
    if n > 0 {
      LiveEntries(entries[1..], n - 1);
    }
  }
}
