/** What monitor_marks_sweep does to the table of records: the stable compaction its
    comment describes, and the table its loops actually produce. */
module Compaction {

  /** An operating-system change-notification handle, opaque to the registry. */
  type Handle = int

  /** One slot of the registry: a live handle and the directory it watches. */
  datatype Record = Record(handle: Handle, dir: string)

  /** The handles of a table, slot by slot. */
  function Handles(recs: seq<Record>): (hs: seq<Handle>)
    ensures |hs| == |recs|
    ensures forall k :: 0 <= k < |recs| ==> hs[k] == recs[k].handle
  {
    seq(|recs|, k requires 0 <= k < |recs| => recs[k].handle)
  }

  /** The first slot watching dir, or -1: the dedupe scan of monitor_add_inner. */
  function Find(recs: seq<Record>, dir: string): (i: int)
    ensures -1 <= i < |recs|
    ensures i >= 0 ==> recs[i].dir == dir
    ensures forall k :: 0 <= k < |recs| && (i < 0 || k < i) ==> recs[k].dir != dir
  {
    if recs == [] then -1
    else if recs[0].dir == dir then 0
    else
      var rest := Find(recs[1..], dir);
      if rest < 0 then -1 else rest + 1
  }

  /** No directory is watched twice. */
  ghost predicate DistinctDirs(recs: seq<Record>)
  {
    forall a, b :: 0 <= a < b < |recs| ==> recs[a].dir != recs[b].dir
  }

  /** Find answers the first position whose directory is dir. */
  lemma FindFirst(recs: seq<Record>, dir: string, i: nat)
    requires i < |recs| && recs[i].dir == dir
    requires forall k :: 0 <= k < i ==> recs[k].dir != dir
    ensures Find(recs, dir) == i
  {
  }

  /** Find answers -1 when no position has directory dir. */
  lemma FindNone(recs: seq<Record>, dir: string)
    requires forall k :: 0 <= k < |recs| ==> recs[k].dir != dir
    ensures Find(recs, dir) == -1
  {
  }

  /** Appending a record for a directory not yet present keeps the directories distinct. */
  lemma AppendDistinct(recs: seq<Record>, r: Record)
    requires DistinctDirs(recs) && Find(recs, r.dir) < 0
    ensures DistinctDirs(recs + [r])
  {
  }

  /** Number of marks set among the first n. */
  function CountMarked(marks: seq<bool>, n: nat): (c: nat)
    requires n <= |marks|
    ensures c <= n
  {
    if n == 0 then 0 else CountMarked(marks, n - 1) + (if marks[n - 1] then 1 else 0)
  }

  /** A marked position has a smaller rank than every later marked position. */
  lemma {:induction false} RankMonotone(marks: seq<bool>, p: nat, q: nat)
    requires p < q <= |marks| && marks[p]
    ensures CountMarked(marks, p) < CountMarked(marks, q)
  {
    if q > p + 1 {
      RankMonotone(marks, p, q - 1);
    }
  }

  /** The records a stable compaction keeps: the marked ones among the first n, in order. */
  function Kept(recs: seq<Record>, marks: seq<bool>, n: nat): (kept: seq<Record>)
    requires |recs| == |marks| && n <= |recs|
    ensures |kept| == CountMarked(marks, n)
  {
    if n == 0 then []
    else Kept(recs, marks, n - 1) + (if marks[n - 1] then [recs[n - 1]] else [])
  }

  /** The handles a compaction releases: those of the unmarked records among the first n, in order. */
  function Dropped(recs: seq<Record>, marks: seq<bool>, n: nat): (dropped: seq<Handle>)
    requires |recs| == |marks| && n <= |recs|
    ensures |dropped| == n - CountMarked(marks, n)
  {
    if n == 0 then []
    else Dropped(recs, marks, n - 1) + (if marks[n - 1] then [] else [recs[n - 1].handle])
  }

  /** The marked record at position p lands at its rank, and nothing else is kept. */
  lemma {:induction false} KeptAt(recs: seq<Record>, marks: seq<bool>, n: nat)
    requires |recs| == |marks| && n <= |recs|
    ensures forall p :: 0 <= p < n && marks[p] ==>
      CountMarked(marks, p) < |Kept(recs, marks, n)| && Kept(recs, marks, n)[CountMarked(marks, p)] == recs[p]
    ensures forall x :: x in Kept(recs, marks, n) ==> exists p :: 0 <= p < n && marks[p] && recs[p] == x
  {
    if n > 0 {
      KeptAt(recs, marks, n - 1);
      var kept := Kept(recs, marks, n);
      forall p | 0 <= p < n && marks[p]
        ensures CountMarked(marks, p) < |kept| && kept[CountMarked(marks, p)] == recs[p]
      {
        if p < n - 1 {
          RankMonotone(marks, p, n - 1);
        }
      }
    }
  }

  /** Every unmarked record's handle is among those released, and only those are. */
  lemma {:induction false} DroppedAt(recs: seq<Record>, marks: seq<bool>, n: nat)
    requires |recs| == |marks| && n <= |recs|
    ensures forall p :: 0 <= p < n && !marks[p] ==> recs[p].handle in Dropped(recs, marks, n)
    ensures forall h :: h in Dropped(recs, marks, n) ==> exists p :: 0 <= p < n && !marks[p] && recs[p].handle == h
  {
    if n > 0 {
      DroppedAt(recs, marks, n - 1);
    }
  }

  /** Compaction keeps directories distinct. */
  lemma {:induction false} KeptDistinct(recs: seq<Record>, marks: seq<bool>, n: nat)
    requires |recs| == |marks| && n <= |recs| && DistinctDirs(recs)
    ensures DistinctDirs(Kept(recs, marks, n))
  {
    if n > 0 && marks[n - 1] {
      KeptDistinct(recs, marks, n - 1);
      KeptAt(recs, marks, n - 1);
      var prev := Kept(recs, marks, n - 1);
      forall a | 0 <= a < |prev|
        ensures prev[a].dir != recs[n - 1].dir
      {
        assert prev[a] in prev;
      }
    } else if n > 0 {
      KeptDistinct(recs, marks, n - 1);
    }
  }

  // The sweep as written. Its outer loop takes a marked record by `acc++` alone;
  // its inner loop, entered after an unmarked record, moves the next marked one
  // down to slot `acc`. So the marked record at p is moved exactly when the record
  // before it is unmarked, and then to slot CountMarked(marks, p).

  /** The marked record at p is one the inner loop moves. */
  predicate Moved(marks: seq<bool>, p: nat)
    requires p < |marks|
  {
    marks[p] && p > 0 && !marks[p - 1]
  }

  /** The table after the sweep as written has gone over the first n positions. */
  function AsWritten(recs: seq<Record>, marks: seq<bool>, n: nat): (table: seq<Record>)
    requires |recs| == |marks| && n <= |recs|
    ensures |table| == |recs|
    ensures forall k :: CountMarked(marks, n) <= k < |recs| ==> table[k] == recs[k]
  {
    if n == 0 then recs
    else
      var prev := AsWritten(recs, marks, n - 1);
      if Moved(marks, n - 1) then prev[CountMarked(marks, n - 1) := recs[n - 1]] else prev
  }

  /** The marks after the sweep as written has gone over the first n positions:
      each move also sets the mark of the slot it writes. */
  function MarksAsWritten(marks: seq<bool>, n: nat): (m: seq<bool>)
    requires n <= |marks|
    ensures |m| == |marks|
    ensures forall k :: CountMarked(marks, n) <= k < |marks| ==> m[k] == marks[k]
  {
    if n == 0 then marks
    else
      var prev := MarksAsWritten(marks, n - 1);
      if Moved(marks, n - 1) then prev[CountMarked(marks, n - 1) := true] else prev
  }

  /** Every one of the first p records is marked. */
  predicate MarkedBefore(marks: seq<bool>, p: nat)
    requires p <= |marks|
  {
    forall q :: 0 <= q < p ==> marks[q]
  }

  /** After the first unmarked record, no two marked records are adjacent. */
  predicate AdjacentOnlyBeforeGap(marks: seq<bool>)
  {
    forall p :: 1 <= p < |marks| && marks[p - 1] && marks[p] ==> MarkedBefore(marks, p)
  }

  /** Where no two marked records are adjacent after a gap, the sweep as written is
      the stable compaction. */
  lemma {:induction false} AsWrittenStable(recs: seq<Record>, marks: seq<bool>, n: nat)
    requires |recs| == |marks| && n <= |recs| && AdjacentOnlyBeforeGap(marks)
    ensures AsWritten(recs, marks, n)[..CountMarked(marks, n)] == Kept(recs, marks, n)
  {
    if n > 0 {
      var p := n - 1;
      var c := CountMarked(marks, p);
      AsWrittenStable(recs, marks, p);
      var t := AsWritten(recs, marks, p);
      if marks[p] && !Moved(marks, p) {
        if p > 0 {
          AllMarkedRank(marks, p);
        }
        assert c == p;
        assert t[..c + 1] == t[..c] + [recs[p]];
      } else if Moved(marks, p) {
        assert t[c := recs[p]][..c + 1] == t[..c] + [recs[p]];
      }
    }
  }

  /** Under the same condition every slot the sweep as written leaves live is marked. */
  lemma {:induction false} MarksAsWrittenStable(marks: seq<bool>, n: nat)
    requires n <= |marks| && AdjacentOnlyBeforeGap(marks)
    ensures forall k :: 0 <= k < CountMarked(marks, n) ==> MarksAsWritten(marks, n)[k]
  {
    if n > 0 {
      var p := n - 1;
      MarksAsWrittenStable(marks, p);
      if marks[p] && !Moved(marks, p) && p > 0 {
        AllMarkedRank(marks, p);
      }
    }
  }

  /** With every one of the first p marked, the rank of p is p. */
  lemma {:induction false} AllMarkedRank(marks: seq<bool>, p: nat)
    requires p <= |marks| && MarkedBefore(marks, p)
    ensures CountMarked(marks, p) == p
  {
    if p > 0 {
      AllMarkedRank(marks, p - 1);
    }
  }

  /** A slot that is the rank of a marked record the sweep does not move is never written. */
  lemma {:induction false} AsWrittenUntouched(recs: seq<Record>, marks: seq<bool>, n: nat, p: nat)
    requires |recs| == |marks| && p < n <= |recs| && marks[p] && !Moved(marks, p)
    ensures AsWritten(recs, marks, n)[CountMarked(marks, p)] == recs[CountMarked(marks, p)]
  {
    if n - 1 > p {
      AsWrittenUntouched(recs, marks, n - 1, p);
      if Moved(marks, n - 1) {
        RankMonotone(marks, p, n - 1);
      }
    }
  }

  /** Conversely, on records with distinct directories the sweep as written is the
      stable compaction only where no two marked records are adjacent after a gap. */
  lemma AsWrittenStableOnlyIf(recs: seq<Record>, marks: seq<bool>)
    requires |recs| == |marks| && DistinctDirs(recs)
    requires AsWritten(recs, marks, |recs|)[..CountMarked(marks, |recs|)] == Kept(recs, marks, |recs|)
    ensures AdjacentOnlyBeforeGap(marks)
  {
    var n := |recs|;
    forall p, q | 0 < p < n && marks[p - 1] && marks[p] && 0 <= q < p
      ensures marks[q]
    {
      if !marks[q] {
        var c := CountMarked(marks, p);
        RankBelow(marks, q, p);
        AsWrittenUntouched(recs, marks, n, p);
        RankMonotone(marks, p, n);
        KeptAt(recs, marks, n);
      }
    }
  }

  /** An unmarked record before p puts the rank of p below p. */
  lemma {:induction false} RankBelow(marks: seq<bool>, q: nat, p: nat)
    requires q < p <= |marks| && !marks[q]
    ensures CountMarked(marks, p) < p
  {
    if p > q + 1 {
      RankBelow(marks, q, p - 1);
    } else {
      assert CountMarked(marks, q) <= q;
    }
  }

  /** The example of the sweep's comment, [1, 0, 0, 2, 0, 0, 0, 3] => [1, 2, 3]. */
  lemma CommentExample(a: Record, b: Record, c: Record, z: Record)
    ensures var recs := [a, z, z, b, z, z, z, c];
      var marks := [true, false, false, true, false, false, false, true];
      AsWritten(recs, marks, 8)[..CountMarked(marks, 8)] == [a, b, c]
      && Dropped(recs, marks, 8) == [z.handle, z.handle, z.handle, z.handle, z.handle]
  {
    var recs := [a, z, z, b, z, z, z, c];
    var marks := [true, false, false, true, false, false, false, true];
    assert AdjacentOnlyBeforeGap(marks);
    AsWrittenStable(recs, marks, 8);
    assert Kept(recs, marks, 1) == [a];
    assert Kept(recs, marks, 3) == [a];
    assert Kept(recs, marks, 4) == [a, b];
    assert Kept(recs, marks, 5) == [a, b];
    assert Kept(recs, marks, 6) == [a, b];
    assert Kept(recs, marks, 7) == [a, b];
    assert Dropped(recs, marks, 1) == [];
    assert Dropped(recs, marks, 3) == [z.handle, z.handle];
    assert Dropped(recs, marks, 4) == [z.handle, z.handle];
    assert Dropped(recs, marks, 5) == [z.handle, z.handle, z.handle];
    assert Dropped(recs, marks, 6) == [z.handle, z.handle, z.handle, z.handle];
    assert Dropped(recs, marks, 7) == [z.handle, z.handle, z.handle, z.handle, z.handle];
  }

  /** Marks [1, 0, 1, 1] over [A, B, C, D]: the sweep as written leaves [A, C, C]; D is
      neither kept nor released, and C is kept twice. */
  lemma AsWrittenCounterexample()
    ensures var recs := [Record(1, "A"), Record(2, "B"), Record(3, "C"), Record(4, "D")];
      var marks := [true, false, true, true];
      var swept := AsWritten(recs, marks, 4)[..CountMarked(marks, 4)];
      swept == [recs[0], recs[2], recs[2]]
      && swept != Kept(recs, marks, 4)
      && Dropped(recs, marks, 4) == [2]
      && 4 !in Handles(swept) && 4 !in Dropped(recs, marks, 4)
      && !DistinctDirs(swept)
  {
    var recs := [Record(1, "A"), Record(2, "B"), Record(3, "C"), Record(4, "D")];
    var marks := [true, false, true, true];
    assert CountMarked(marks, 4) == 3;
    assert AsWritten(recs, marks, 1) == recs;
    assert AsWritten(recs, marks, 2) == recs;
    assert Moved(marks, 2);
    assert AsWritten(recs, marks, 3) == [recs[0], recs[2], recs[2], recs[3]];
    assert AsWritten(recs, marks, 4) == [recs[0], recs[2], recs[2], recs[3]];
    var swept := AsWritten(recs, marks, 4)[..3];
    assert Kept(recs, marks, 4)[2] == recs[3];
    assert swept[1].dir == swept[2].dir;
  }

  // The sweep on the registry's slot arrays, given as one value.

  /** The slot arrays of the registry as values: handles, directories and marks. */
  datatype Slots = Slots(hs: seq<Handle>, ds: seq<string>, mk: seq<bool>)
  {
    predicate Sized(n: nat)
    {
      |hs| == n && |ds| == n && |mk| == n
    }

    /** The record in slot `from` copied into slot `to`, whose mark is set. */
    function Move(from: nat, to: nat): (s: Slots)
      requires from < |hs| && from < |ds| && to < |hs| && to < |ds| && to < |mk|
      ensures s.hs == hs[to := hs[from]] && s.ds == ds[to := ds[from]] && s.mk == mk[to := true]
    {
      Slots(hs[to := hs[from]], ds[to := ds[from]], mk[to := true])
    }
  }

  /** The records in the first n slots. */
  function RecordsOf(s: Slots, n: nat): (recs: seq<Record>)
    requires n <= |s.hs| && n <= |s.ds|
    ensures |recs| == n
    ensures forall k :: 0 <= k < n ==> recs[k] == Record(s.hs[k], s.ds[k])
  {
    seq(n, k requires 0 <= k < n => Record(s.hs[k], s.ds[k]))
  }

  /** The records depend on the handles and directories only. */
  lemma SameRecords(s: Slots, t: Slots, n: nat)
    requires n <= |s.hs| && n <= |s.ds| && s.hs == t.hs && s.ds == t.ds
    ensures RecordsOf(s, n) == RecordsOf(t, n)
  {
  }

  /** s0 is the table before a sweep: its first |recs| slots hold recs, marked by ms. */
  ghost predicate Snapshot(recs: seq<Record>, ms: seq<bool>, s0: Slots)
  {
    |recs| == |ms| <= |s0.hs| && s0.Sized(|s0.hs|)
    && forall k :: 0 <= k < |recs| ==> recs[k] == Record(s0.hs[k], s0.ds[k]) && ms[k] == s0.mk[k]
  }

  lemma SnapshotOf(s0: Slots, n: nat)
    requires s0.Sized(|s0.hs|) && n <= |s0.hs|
    ensures Snapshot(RecordsOf(s0, n), s0.mk[..n], s0)
  {
  }

  /** The slots after the stable compaction has gone over the first i positions: each
      marked record is copied down to its rank. */
  function Compacted(s0: Slots, ms: seq<bool>, i: nat): (s: Slots)
    requires i <= |ms| <= |s0.hs| && s0.Sized(|s0.hs|)
    ensures s.Sized(|s0.hs|)
  {
    if i == 0 then s0
    else
      var prev := Compacted(s0, ms, i - 1);
      if ms[i - 1] then prev.Move(i - 1, CountMarked(ms, i - 1)) else prev
  }

  /** The slots after the sweep as written has gone over the first i positions: only
      the marked records the inner loop reaches are copied down. */
  function CompactedAsWritten(s0: Slots, ms: seq<bool>, i: nat): (s: Slots)
    requires i <= |ms| <= |s0.hs| && s0.Sized(|s0.hs|)
    ensures s.Sized(|s0.hs|)
  {
    if i == 0 then s0
    else
      var prev := CompactedAsWritten(s0, ms, i - 1);
      if Moved(ms, i - 1) then prev.Move(i - 1, CountMarked(ms, i - 1)) else prev
  }

  /** Copying a marked slot onto itself changes nothing. */
  lemma MoveInPlace(s: Slots, i: nat)
    requires i < |s.hs| && s.Sized(|s.hs|) && s.mk[i]
    ensures s.Move(i, i) == s
  {
    assert s.Move(i, i).hs == s.hs;
    assert s.Move(i, i).ds == s.ds;
    assert s.Move(i, i).mk == s.mk;
  }

  /** The compaction never writes at or above the rank it has reached. */
  lemma {:induction false} CompactedAbove(s0: Slots, ms: seq<bool>, i: nat, k: nat)
    requires i <= |ms| <= |s0.hs| && s0.Sized(|s0.hs|) && CountMarked(ms, i) <= k < |s0.hs|
    ensures var s := Compacted(s0, ms, i); s.hs[k] == s0.hs[k] && s.ds[k] == s0.ds[k] && s.mk[k] == s0.mk[k]
  {
    if i > 0 {
      CompactedAbove(s0, ms, i - 1, k);
    }
  }

  /** The sweep as written never writes at or above the rank it has reached. */
  lemma {:induction false} CompactedAsWrittenAbove(s0: Slots, ms: seq<bool>, i: nat, k: nat)
    requires i <= |ms| <= |s0.hs| && s0.Sized(|s0.hs|) && CountMarked(ms, i) <= k < |s0.hs|
    ensures var s := CompactedAsWritten(s0, ms, i); s.hs[k] == s0.hs[k] && s.ds[k] == s0.ds[k] && s.mk[k] == s0.mk[k]
  {
    if i > 0 {
      CompactedAsWrittenAbove(s0, ms, i - 1, k);
    }
  }

  /** The slot the compaction reads next still holds its original record and mark. */
  lemma CompactedReads(s0: Slots, recs: seq<Record>, ms: seq<bool>, i: nat)
    requires |ms| <= |s0.hs| && s0.Sized(|s0.hs|) && ms == s0.mk[..|ms|] && recs == RecordsOf(s0, |ms|)
    requires i < |ms|
    ensures var s := Compacted(s0, ms, i); s.mk[i] == ms[i] && s.hs[i] == recs[i].handle
  {
    CompactedAbove(s0, ms, i, i);
  }

  /** A position the sweep as written does not move leaves the slots as they are; its
      record's handle is closed when it is unmarked. */
  lemma AsWrittenSkip(s0: Slots, recs: seq<Record>, ms: seq<bool>, i: nat)
    requires |ms| <= |s0.hs| && s0.Sized(|s0.hs|) && |recs| == |ms| && i < |ms| && !Moved(ms, i)
    ensures CompactedAsWritten(s0, ms, i + 1) == CompactedAsWritten(s0, ms, i)
    ensures CountMarked(ms, i + 1) == CountMarked(ms, i) + (if ms[i] then 1 else 0)
    ensures Dropped(recs, ms, i + 1) == Dropped(recs, ms, i) + (if ms[i] then [] else [recs[i].handle])
  {
  }

  /** The slot the sweep as written reads next still holds its original record and mark. */
  lemma CompactedAsWrittenReads(s0: Slots, recs: seq<Record>, ms: seq<bool>, i: nat)
    requires |ms| <= |s0.hs| && s0.Sized(|s0.hs|) && ms == s0.mk[..|ms|] && recs == RecordsOf(s0, |ms|)
    requires i < |ms|
    ensures var s := CompactedAsWritten(s0, ms, i); s.mk[i] == ms[i] && s.hs[i] == recs[i].handle
  {
    CompactedAsWrittenAbove(s0, ms, i, i);
  }

  /** The compacted slots hold the kept records, each marked, below the rank reached,
      and are untouched from there up. */
  lemma {:induction false} CompactedKeeps(recs: seq<Record>, ms: seq<bool>, s0: Slots, i: nat)
    requires Snapshot(recs, ms, s0) && i <= |recs|
    ensures var s := Compacted(s0, ms, i);
      (forall k :: 0 <= k < CountMarked(ms, i) ==> Record(s.hs[k], s.ds[k]) == Kept(recs, ms, i)[k] && s.mk[k])
      && forall k :: CountMarked(ms, i) <= k < |s0.hs| ==> s.hs[k] == s0.hs[k] && s.ds[k] == s0.ds[k] && s.mk[k] == s0.mk[k]
  {
    if i > 0 {
      CompactedKeeps(recs, ms, s0, i - 1);
      var prev := Compacted(s0, ms, i - 1);
      if ms[i - 1] {
        var c := CountMarked(ms, i - 1);
        assert Record(prev.hs[i - 1], prev.ds[i - 1]) == recs[i - 1];
        assert Compacted(s0, ms, i) == prev.Move(i - 1, c);
        assert Kept(recs, ms, i) == Kept(recs, ms, i - 1) + [recs[i - 1]];
      } else {
        assert Compacted(s0, ms, i) == prev;
      }
    }
  }

  /** After the whole compaction the live slots are the kept records, in order. */
  lemma CompactedRecords(s0: Slots, n: nat)
    requires s0.Sized(|s0.hs|) && n <= |s0.hs|
    ensures var ms := s0.mk[..n]; var c := CountMarked(ms, n); var s := Compacted(s0, ms, n);
      RecordsOf(s, c) == Kept(RecordsOf(s0, n), ms, n) && s.mk[..c] == seq(c, _ => true)
  {
    SnapshotOf(s0, n);
    CompactedKeeps(RecordsOf(s0, n), s0.mk[..n], s0, n);
  }

  /** The slots the sweep as written leaves hold AsWritten and MarksAsWritten among the
      live slots, and are untouched beyond them. */
  lemma {:induction false} CompactedAsWrittenTable(recs: seq<Record>, ms: seq<bool>, s0: Slots, i: nat)
    requires Snapshot(recs, ms, s0) && i <= |recs|
    ensures var s := CompactedAsWritten(s0, ms, i);
      (forall k :: 0 <= k < |recs| ==>
         Record(s.hs[k], s.ds[k]) == AsWritten(recs, ms, i)[k] && s.mk[k] == MarksAsWritten(ms, i)[k])
      && forall k :: |recs| <= k < |s0.hs| ==> s.hs[k] == s0.hs[k] && s.ds[k] == s0.ds[k] && s.mk[k] == s0.mk[k]
  {
    if i > 0 {
      CompactedAsWrittenTable(recs, ms, s0, i - 1);
    }
  }

  /** After the whole sweep as written the live slots are AsWritten with MarksAsWritten. */
  lemma CompactedAsWrittenRecords(s0: Slots, n: nat)
    requires s0.Sized(|s0.hs|) && n <= |s0.hs|
    ensures var ms := s0.mk[..n]; var s := CompactedAsWritten(s0, ms, n); var c := CountMarked(ms, n);
      RecordsOf(s, c) == AsWritten(RecordsOf(s0, n), ms, n)[..c] && s.mk[..c] == MarksAsWritten(ms, n)[..c]
  {
    SnapshotOf(s0, n);
    CompactedAsWrittenTable(RecordsOf(s0, n), s0.mk[..n], s0, n);
  }
}
