/**
 What pruning promises about time (Source/Editor/Backup.cpp:154-178, 240-296, 316-347): the versions it
 leaves are the newest, none of them too old, and never more than the limit.
 */
module Retention {
  import opened Common
  import opened Calendar
  import opened TextOrder
  import opened VersionNames
  import opened Backup

  // ---- names that the program wrote ----

  /** The name of a version of a real date, or of a temporary file beside it. */
  ghost predicate Genuine(name: string) {
    exists s: Stamp, tail: string :: Fits(s) && Valid(s.time) && name == Written(s, tail)
  }

  ghost predicate AllGenuine(entries: Entries) {
    forall name :: IsVersion(entries, name) ==> Genuine(name)
  }

  lemma LaterNameIsNotEarlier(a: string, b: string)
    requires Genuine(a) && Genuine(b)
    ensures ParseVersionTimestamp(a).Some? && ParseVersionTimestamp(b).Some?
    ensures TimeOf(a) < TimeOf(b) ==> Less(a, b)
    ensures Less(a, b) ==> TimeOf(a) <= TimeOf(b)
  {
    var s, x :| Fits(s) && Valid(s.time) && a == Written(s, x);
    var t, y :| Fits(t) && Valid(t.time) && b == Written(t, y);
    WrittenReads(s, x);
    WrittenReads(t, y);
    StampsSortByTime(s, t, x, y);
  }

  lemma VersionsAreGenuine(timestamp: int, sequence: int)
    requires InRange(timestamp) && 0 <= sequence < 100
    ensures Genuine(VersionFileName(timestamp, sequence))
  {
    var s := StampAt(timestamp, sequence);
    assert VersionFileName(timestamp, sequence) == Written(s, EXTENSION);
  }

  // ---- what survives ----

  /** Survivors are closed upwards in time: nothing newer than a kept version is removed. */
  lemma NewerSurvives(entries: Entries, limits: Limits, older: string, newer: string)
    requires AllGenuine(entries) && IsVersion(entries, older) && IsVersion(entries, newer)
    requires TimeOf(older) < TimeOf(newer) && older in Pruned(entries, limits)
    ensures newer in Pruned(entries, limits)
  {
    LaterNameIsNotEarlier(older, newer);
    var names := FreshNames(entries, limits);
    forall name | name in Above(names, newer) ensures name in Above(names, older) {
      LessIsTransitive(older, newer, name);
    }
    Inside(Above(names, newer), Above(names, older));
  }

  /** Nothing removed for number alone is newer than anything kept. */
  lemma RemovedAreOldest(entries: Entries, limits: Limits, kept: string, removed: string)
    requires AllGenuine(entries) && IsVersion(entries, kept) && IsVersion(entries, removed)
    requires kept in Pruned(entries, limits) && removed !in Pruned(entries, limits)
    ensures TimeOf(removed) <= TimeOf(kept)
  {
    if TimeOf(kept) < TimeOf(removed) {
      NewerSurvives(entries, limits, kept, removed);
    }
  }

  function KeptVersions(entries: Entries, limits: Limits): set<string> {
    AllVersions(Pruned(entries, limits))
  }

  lemma {:induction false} SomeOrder(names: set<string>) returns (sorted: seq<string>)
    ensures Descending(sorted) && Elements(sorted) == names && |sorted| == |names|
    decreases names
  {
    if names == {} {
      sorted := [];
    } else {
      var name :| name in names;
      var rest := SomeOrder(names - {name});
      assert name !in rest by {
        assert name in rest <==> name in Elements(rest);
      }
      sorted := Insert(rest, name);
    }
  }

  /** Exactly as many versions survive as there are young enough, up to the limit. */
  lemma ExactlyTheNewest(entries: Entries, limits: Limits)
    requires limits.maxVersions > 0
    ensures var young := |FreshNames(entries, limits)|;
      |KeptVersions(entries, limits)| == if young < limits.maxVersions then young else limits.maxVersions
  {
    var names := FreshNames(entries, limits);
    var sorted := SomeOrder(names);
    var n := if |sorted| < limits.maxVersions then |sorted| else limits.maxVersions;
    forall name ensures name in KeptVersions(entries, limits) <==> name in sorted[..n] {
      assert name in names <==> name in Elements(sorted);
      if name in sorted {
        var i :| 0 <= i < |sorted| && sorted[i] == name;
        RankIsPosition(sorted, i);
        BelowMeansLater(sorted, n, i);
      }
      KeptIsFreshAmong(entries, limits, name);
    }
    assert KeptVersions(entries, limits) == Elements(sorted[..n]);
    DistinctCount(sorted[..n]);
  }

  lemma KeptIsFreshAmong(entries: Entries, limits: Limits, name: string)
    requires limits.maxVersions > 0
    ensures name in KeptVersions(entries, limits) <==>
      name in FreshNames(entries, limits) && |Above(FreshNames(entries, limits), name)| < limits.maxVersions
  {
  }

  /** Pruning again at the same moment removes nothing more. */
  lemma PruningIsIdempotent(entries: Entries, limits: Limits)
    ensures Pruned(Pruned(entries, limits), limits) == Pruned(entries, limits)
  {
    var once := Pruned(entries, limits);
    forall name | name in once ensures Kept(once, limits, name) {
      if IsVersion(entries, name) && limits.maxVersions > 0 {
        assert FreshNames(once, limits) == KeptVersions(entries, limits);
        ExactlyTheNewest(entries, limits);
        AboveIsFewer(FreshNames(once, limits), name);
      }
    }
  }

  // ---- the next version's name ----

  /** The first free name of the second; with all hundred taken, the last one is given again. */
  method NextVersionPath(names: set<string>, timestamp: int) returns (name: string, ghost slot: int)
    requires InRange(timestamp)
    ensures NextSlot(names, timestamp, slot) && name == VersionFileName(timestamp, slot)
  {
    for sequence := 0 to 100
      invariant forall i :: 0 <= i < sequence ==> Taken(names, timestamp, i)
    {
      var candidate := VersionFileName(timestamp, sequence);
      SlotIs(names, timestamp, sequence, candidate);
      if candidate !in names {
        return candidate, sequence;
      }
    }
    slot := 99;
    name := VersionFileName(timestamp, 99);
  }

  /** What a turn of the search learns. */
  lemma SlotIs(names: set<string>, timestamp: int, slot: int, candidate: string)
    requires InRange(timestamp) && 0 <= slot < 100 && candidate == VersionFileName(timestamp, slot)
    requires forall i :: 0 <= i < slot ==> Taken(names, timestamp, i)
    ensures candidate in names <==> Taken(names, timestamp, slot)
    ensures candidate !in names ==> NextSlot(names, timestamp, slot)
  {
  }

  predicate Taken(names: set<string>, timestamp: int, sequence: int)
    requires InRange(timestamp)
  {
    0 <= sequence < 100 && VersionFileName(timestamp, sequence) in names
  }

  predicate NextSlot(names: set<string>, timestamp: int, slot: int)
    requires InRange(timestamp)
  {
    && 0 <= slot < 100
    && (forall i :: 0 <= i < slot ==> Taken(names, timestamp, i))
    && (Taken(names, timestamp, slot) ==> slot == 99)
  }

  /** The new version sorts behind all others of its second exactly when the slots taken so far leave no gap. */
  lemma NewNameIsNewest(names: set<string>, timestamp: int, slot: int)
    requires InRange(timestamp) && NextSlot(names, timestamp, slot)
    ensures
      (forall i :: Taken(names, timestamp, i) && i != slot ==>
        Less(VersionFileName(timestamp, i), VersionFileName(timestamp, slot)))
      <==> (forall i, j :: 0 <= i < j && Taken(names, timestamp, j) ==> Taken(names, timestamp, i))
  {
    forall i | 0 <= i < 100
      ensures Less(VersionFileName(timestamp, i), VersionFileName(timestamp, slot)) <==> i < slot
    {
      NamesSortByTime(timestamp, i, timestamp, slot);
    }
    if j :| slot < j && Taken(names, timestamp, j) {
      assert !Taken(names, timestamp, slot);
    }
  }

  /**
   A prune by number opens a gap: of two versions of one second it removes the older where one may stay, and
   the next save of that second takes the freed name, which sorts before the version that is older than it.
   */
  lemma PruneOpensGap(timestamp: int, days: nat)
    requires InRange(timestamp)
    ensures var first, second := VersionFileName(timestamp, 0), VersionFileName(timestamp, 1);
      var entries := map[first := Entry(true, timestamp), second := Entry(true, timestamp)];
      var left := Pruned(entries, Limits(timestamp, days, 1)).Keys;
      left == {second} && NextSlot(left, timestamp, 0) && Less(first, second)
  {
    var first, second := VersionFileName(timestamp, 0), VersionFileName(timestamp, 1);
    NamesSortByTime(timestamp, 0, timestamp, 1);
    NamesSortByTime(timestamp, 1, timestamp, 1);
    ParsingUndoesNaming(timestamp, 0);
    ParsingUndoesNaming(timestamp, 1);
    LessIsTotal(first, first);
    PruneOfTwo(first, second, timestamp, days);
    FirstIsFree(first, second, timestamp);
  }

  lemma FirstIsFree(first: string, second: string, timestamp: int)
    requires InRange(timestamp) && first == VersionFileName(timestamp, 0) && first != second
    ensures NextSlot({second}, timestamp, 0)
  {
    assert !Taken({second}, timestamp, 0);
  }

  lemma PruneOfTwo(first: string, second: string, time: int, days: nat)
    requires ParseVersionTimestamp(first) == Some(time) && ParseVersionTimestamp(second) == Some(time)
    requires Less(first, second) && !Less(second, second)
    ensures Pruned(map[first := Entry(true, time), second := Entry(true, time)], Limits(time, days, 1)).Keys == {second}
  {
    var entries, limits := map[first := Entry(true, time), second := Entry(true, time)], Limits(time, days, 1);
    LessIsTotal(first, second);
    TwoAreFresh(first, second, time, entries, limits);
    GreaterIsKept(first, second, entries, limits);
  }

  lemma TwoAreFresh(first: string, second: string, time: int, entries: Entries, limits: Limits)
    requires ParseVersionTimestamp(first) == Some(time) && ParseVersionTimestamp(second) == Some(time)
    requires entries == map[first := Entry(true, time), second := Entry(true, time)] && !limits.TooOld(time)
    ensures FreshNames(entries, limits) == {first, second}
  {
    assert IsVersion(entries, first) && IsVersion(entries, second);
    assert Fresh(entries, limits, first) && Fresh(entries, limits, second);
  }

  lemma GreaterIsKept(first: string, second: string, entries: Entries, limits: Limits)
    requires entries.Keys == {first, second} == FreshNames(entries, limits) && limits.maxVersions == 1
    requires Less(first, second) && !Less(second, first) && !Less(second, second)
    ensures Pruned(entries, limits).Keys == {second}
  {
    GreaterOfTwo(first, second);
    FreshIsKept(entries, limits, first);
    FreshIsKept(entries, limits, second);
  }

  lemma GreaterOfTwo(first: string, second: string)
    requires Less(first, second) && !Less(second, first) && !Less(second, second)
    ensures Among({first, second}, 1, second) && !Among({first, second}, 1, first)
  {
    assert second in Above({first, second}, first);
    assert Above({first, second}, second) == {};
  }

  lemma FreshIsKept(entries: Entries, limits: Limits, name: string)
    requires name in FreshNames(entries, limits) && limits.maxVersions > 0
    ensures name in Pruned(entries, limits) <==> Among(FreshNames(entries, limits), limits.maxVersions, name)
  {
  }

  // ---- listing ----

  datatype Listed = Listed(name: string, time: int, isAutoSave: bool)

  /** The autosave first, if there is one, then the versions from the greatest name down. */
  method ListBackupVersions(entries: Entries) returns (listed: seq<Listed>)
    ensures exists names ::
      && Descending(names) && Elements(names) == AllVersions(entries)
      && listed == (if AUTOSAVE in entries then [Listed(AUTOSAVE, entries[AUTOSAVE].modified, true)] else [])
        + Backups(names)
  {
    var versions := CollectVersions(entries);
    var names := SortDescending(versions);
    assert forall name <- names :: ParseVersionTimestamp(name).Some? by {
      forall name | name in names ensures ParseVersionTimestamp(name).Some? {
        assert name in Elements(names);
        InAllVersions(entries, name);
      }
    }
    listed := if AUTOSAVE in entries then [Listed(AUTOSAVE, entries[AUTOSAVE].modified, true)] else [];
    listed := listed + Backups(names);
  }

  function Backups(names: seq<string>): (r: seq<Listed>)
    ensures |r| == |names|
  {
    seq(|names|, i requires 0 <= i < |names| =>
      Listed(names[i], (match ParseVersionTimestamp(names[i]) case Some(t) => t case None => 0), false))
  }

  /** A version is listed under its name with the time it was made for, which need not be the file's own. */
  lemma ListedAsMade(names: seq<string>, i: nat, timestamp: int, sequence: int)
    requires InRange(timestamp) && 0 <= sequence < 100
    requires i < |names| && names[i] == VersionFileName(timestamp, sequence)
    ensures Backups(names)[i] == Listed(names[i], timestamp, false)
  {
    ParsingUndoesNaming(timestamp, sequence);
  }

  /** Newest first. */
  lemma ListedNewestFirst(names: seq<string>, i: nat, j: nat)
    requires Descending(names) && (forall name <- names :: Genuine(name)) && i < j < |names|
    ensures Backups(names)[i].time >= Backups(names)[j].time
  {
    LaterNameIsNotEarlier(names[j], names[i]);
  }

  // ---- the timer ----

  const INTERVAL: int := 3600

  /** The timer asks at moments of its own; the stamp of the last prune decides. */
  class Pruner {
    var lastPrune: Option<int>
    ghost var prunes: seq<int>

    ghost predicate Valid()
      reads this
    {
      && lastPrune == (if prunes == [] then None else Some(prunes[|prunes| - 1]))
      && Spaced(prunes)
    }

    constructor ()
      ensures Valid() && prunes == []
    {
      lastPrune, prunes := None, [];
    }

    method MaybePrune(now: int) returns (prune: bool)
      requires Valid()
      modifies this
      ensures Valid()
      ensures prune <==> old(prunes) == [] || now - old(prunes)[|old(prunes)| - 1] >= 3600
      ensures prunes == if prune then old(prunes) + [now] else old(prunes)
    {
      if lastPrune.Some? && now - lastPrune.value < INTERVAL {
        return false;
      }
      lastPrune, prunes := Some(now), prunes + [now];
      return true;
    }
  }

  /** Any two prunes are at least an hour apart. */
  ghost predicate Spaced(prunes: seq<int>) {
    forall i, j :: 0 <= i < j < |prunes| ==> prunes[j] - prunes[i] >= 3600
  }

  // ---- age, in seconds ----

  /** Without a limit on their number, versions stay if and only if they are at most so many times 86400 seconds old. */
  lemma KeptByAge(entries: Entries, limits: Limits, name: string)
    requires IsVersion(entries, name) && limits.maxVersions <= 0
    ensures name in Pruned(entries, limits) <==>
      limits.maxAgeDays <= 0 || limits.now - TimeOf(name) <= 86400 * limits.maxAgeDays
  {
  }

  /** The autosave goes by the same age; what is neither stays. */
  lemma OthersByAge(entries: Entries, limits: Limits, name: string)
    requires name in entries && !IsVersion(entries, name)
    ensures name in Pruned(entries, limits) <==>
      name != "autosave" || limits.maxAgeDays <= 0 || limits.now - entries[name].modified <= 86400 * limits.maxAgeDays
  {
  }
}
