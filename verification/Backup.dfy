/**
 Backup retention (Source/Editor/Backup.cpp:167-178, 240-296, 316-347) over a directory taken as a map from
 names to what lies there. The order in which the file system lists names is a parameter.
 */
module Backup {
  import opened Common
  import opened Calendar
  import opened TextOrder
  import opened VersionNames

  datatype Entry = Entry(regular: bool, modified: int)

  type Entries = map<string, Entry>

  const AUTOSAVE: string := "autosave"
  const SIDECAR: string := "path"

  // ---- which entries a prune keeps ----

  datatype Limits = Limits(now: int, maxAgeDays: int, maxVersions: int) {
    function Cutoff(): int {
      now - maxAgeDays * 24 * 60 * 60
    }

    predicate TooOld(time: int) {
      maxAgeDays > 0 && time < Cutoff()
    }
  }

  predicate IsVersion(entries: Entries, name: string) {
    name in entries && entries[name].regular && ParseVersionTimestamp(name).Some?
  }

  function TimeOf(name: string): int
    requires ParseVersionTimestamp(name).Some?
  {
    ParseVersionTimestamp(name).value
  }

  /** A version that age alone does not remove. */
  predicate Fresh(entries: Entries, limits: Limits, name: string) {
    IsVersion(entries, name) && !limits.TooOld(TimeOf(name))
  }

  function FreshNames(entries: Entries, limits: Limits): set<string> {
    set name | name in entries && Fresh(entries, limits, name)
  }

  /** The names that sort after `name`. */
  function Above(names: set<string>, name: string): set<string> {
    set other | other in names && Less(name, other)
  }

  /** `name` is one of the `n` greatest. */
  predicate Among(names: set<string>, n: int, name: string) {
    name in names && |Above(names, name)| < n
  }

  predicate Kept(entries: Entries, limits: Limits, name: string) {
    name in entries &&
    if IsVersion(entries, name) then
      Fresh(entries, limits, name)
        && (limits.maxVersions > 0 ==> Among(FreshNames(entries, limits), limits.maxVersions, name))
    else name == AUTOSAVE ==> !limits.TooOld(entries[name].modified)
  }

  function Pruned(entries: Entries, limits: Limits): Entries {
    map name | name in entries && Kept(entries, limits, name) :: entries[name]
  }

  // ---- sorting ----

  predicate Descending(names: seq<string>) {
    forall i, j :: 0 <= i < j < |names| ==> Less(names[j], names[i])
  }

  function Elements(names: seq<string>): set<string> {
    set name | name in names
  }

  /** What std::sort promises for different names, greatest first. */
  method SortDescending(names: seq<string>) returns (sorted: seq<string>)
    requires Distinct(names)
    ensures Descending(sorted) && Elements(sorted) == Elements(names) && |sorted| == |names|
  {
    sorted := [];
    for n := 0 to |names|
      invariant Descending(sorted) && Elements(sorted) == Elements(names[..n]) && |sorted| == n
    {
      assert names[..n + 1] == names[..n] + [names[n]];
      SameElements(names[n], names[..n], sorted);
      sorted := Insert(sorted, names[n]);
    }
    assert names[..|names|] == names;
  }

  lemma SameElements(name: string, a: seq<string>, b: seq<string>)
    requires Elements(a) == Elements(b)
    ensures name in a <==> name in b
  {
    assert name in a <==> name in Elements(a);
    assert name in b <==> name in Elements(b);
  }

  function Insert(sorted: seq<string>, name: string): (r: seq<string>)
    requires Descending(sorted) && name !in sorted
    ensures Descending(r) && Elements(r) == Elements(sorted) + {name} && |r| == |sorted| + 1
  {
    if sorted == [] then [name]
    else if Less(sorted[0], name) then
      HeadIsGreatest(sorted, name);
      [name] + sorted
    else
      LessIsTotal(sorted[0], name);
      var rest := Insert(sorted[1..], name);
      InsertBelow(sorted[0], sorted[1..], name, rest);
      assert sorted == [sorted[0]] + sorted[1..];
      [sorted[0]] + rest
  }

  lemma HeadIsGreatest(sorted: seq<string>, name: string)
    requires Descending(sorted) && sorted != [] && Less(sorted[0], name)
    ensures Descending([name] + sorted)
  {
    forall j | 0 <= j < |sorted| ensures Less(sorted[j], name) {
      if j > 0 {
        LessIsTransitive(sorted[j], sorted[0], name);
      }
    }
  }

  lemma InsertBelow(head: string, tail: seq<string>, name: string, rest: seq<string>)
    requires Descending([head] + tail) && Less(name, head) && Descending(rest)
    requires Elements(rest) == Elements(tail) + {name}
    ensures Descending([head] + rest) && Elements([head] + rest) == Elements([head] + tail) + {name}
  {
    forall j | 0 <= j < |rest| ensures Less(rest[j], head) {
      assert rest[j] in Elements(rest);
      if rest[j] != name {
        var k :| 0 <= k < |tail| && tail[k] == rest[j];
        assert ([head] + tail)[k + 1] == rest[j] && ([head] + tail)[0] == head;
      }
    }
    forall x ensures x in [head] + rest <==> x in [head] + tail || x == name {
      assert x in rest <==> x in Elements(rest);
      assert x in tail <==> x in Elements(tail);
    }
  }

  /** In a descending list, the names above the one at `i` are those before it. */
  lemma RankIsPosition(sorted: seq<string>, i: nat)
    requires Descending(sorted) && i < |sorted|
    ensures |Above(Elements(sorted), sorted[i])| == i
  {
    var above := Above(Elements(sorted), sorted[i]);
    assert above == Elements(sorted[..i]) by {
      forall name ensures name in above <==> name in sorted[..i] {
        if name in above {
          var k :| 0 <= k < |sorted| && sorted[k] == name;
          if k > i {
            LessIsTotal(sorted[i], sorted[k]);
          } else if k == i {
            LessIsTotal(name, name);
          }
        }
      }
    }
    DistinctCount(sorted[..i]);
  }

  lemma {:induction false} DistinctCount(names: seq<string>)
    requires Descending(names)
    ensures |Elements(names)| == |names|
  {
    if names != [] {
      var front, last := names[..|names| - 1], names[|names| - 1];
      DistinctCount(front);
      LastIsNew(names, front, last);
      assert Elements(names) == Elements(front) + {last};
    }
  }

  lemma LastIsNew(names: seq<string>, front: seq<string>, last: string)
    requires Descending(names) && names == front + [last]
    ensures last !in front
  {
    if last in front {
      var k :| 0 <= k < |front| && front[k] == last;
      assert Less(names[|front|], names[k]);
      LessIsTotal(last, last);
    }
  }

  // ---- the program ----

  function AllVersions(entries: Entries): set<string> {
    set name | name in entries && IsVersion(entries, name)
  }

  function OldOnes(entries: Entries, limits: Limits): set<string> {
    set name | name in entries && IsVersion(entries, name) && !Fresh(entries, limits, name)
  }

  lemma NextElement(names: seq<string>, i: nat)
    requires i < |names|
    ensures Elements(names[..i + 1]) == Elements(names[..i]) + {names[i]}
    ensures Distinct(names) ==> names[i] !in names[..i]
  {
    assert names[..i + 1] == names[..i] + [names[i]];
  }

  /** One more element, kept if it is wanted. */
  lemma Selects(done: seq<string>, name: string, chosen: seq<string>, wanted: set<string>)
    requires name !in done && Distinct(chosen) && Elements(chosen) == Elements(done) * wanted
    ensures Distinct(chosen + [name])
    ensures name in wanted ==> Elements(chosen + [name]) == (Elements(done) + {name}) * wanted
    ensures name !in wanted ==> Elements(chosen) == (Elements(done) + {name}) * wanted
  {
    assert name in chosen <==> name in Elements(chosen);
    assert name in done <==> name in Elements(done);
    assert Elements(chosen + [name]) == Elements(chosen) + {name};
  }

  lemma AllSelected(names: seq<string>, chosen: seq<string>, wanted: set<string>)
    requires Elements(chosen) == Elements(names[..|names|]) * wanted && wanted <= Elements(names)
    ensures Elements(chosen) == wanted
  {
    assert names[..|names|] == names;
  }

  lemma InAllVersions(entries: Entries, name: string)
    ensures name in AllVersions(entries) <==> IsVersion(entries, name)
  {
  }

  method CollectVersions(entries: Entries) returns (versions: seq<string>)
    ensures Distinct(versions) && Elements(versions) == AllVersions(entries)
  {
    var listing := Listing(entries.Keys);
    ghost var wanted := AllVersions(entries);
    versions := [];
    for i := 0 to |listing|
      invariant Distinct(versions) && Elements(versions) == Elements(listing[..i]) * wanted
    {
      var name := listing[i];
      NextElement(listing, i);
      Selects(listing[..i], name, versions, wanted);
      InAllVersions(entries, name);
      assert name in Elements(listing);
      if entries[name].regular && ParseVersionTimestamp(name).Some? {
        versions := versions + [name];
      }
    }
    AllSelected(listing, versions, wanted);
  }

  /** A directory iteration names every entry once, in an order of its own. */
  method Listing(names: set<string>) returns (listing: seq<string>)
    ensures Distinct(listing) && Elements(listing) == names
  {
    listing := [];
    var left := names;
    while left != {}
      invariant left <= names && Distinct(listing) && Elements(listing) == names - left
      decreases left
    {
      var name :| name in left;
      assert name in listing <==> name in Elements(listing);
      assert Elements(listing + [name]) == Elements(listing) + {name};
      listing, left := listing + [name], left - {name};
    }
  }

  method OnlySidecar(names: set<string>) returns (only: bool)
    ensures only <==> names <= {SIDECAR}
  {
    var listing := Listing(names);
    for i := 0 to |listing|
      invariant Elements(listing[..i]) <= {SIDECAR}
    {
      NextElement(listing, i);
      if listing[i] != SIDECAR {
        assert listing[i] in Elements(listing);
        return false;
      }
    }
    assert listing[..|listing|] == listing;
    return true;
  }

  lemma FreshAreVersions(entries: Entries, limits: Limits)
    ensures FreshNames(entries, limits) <= AllVersions(entries)
    ensures limits.maxAgeDays <= 0 ==> FreshNames(entries, limits) == AllVersions(entries)
    ensures OldOnes(entries, limits) == AllVersions(entries) - FreshNames(entries, limits)
  {
  }

  /** Taking away the old versions and an old autosave is pruning by age alone. */
  lemma WithoutOld(given: Entries, limits: Limits, aged: Entries)
    requires
      var cut := given - OldOnes(given, limits);
      aged ==
      if limits.maxAgeDays > 0 && AUTOSAVE in given && limits.TooOld(given[AUTOSAVE].modified) then cut - {AUTOSAVE}
      else cut
    ensures aged == Pruned(given, limits.(maxVersions := 0))
  {
    var byAge := limits.(maxVersions := 0);
    assert !IsVersion(given, AUTOSAVE) by {
      OnlyVersionsParse(0, 0);
    }
    forall name | name in given ensures name in aged <==> Kept(given, byAge, name) {
      assert Fresh(given, limits, name) <==> Fresh(given, byAge, name);
    }
  }

  /** Removing what sorts behind the first `maxVersions` leaves exactly the kept entries. */
  lemma SurplusIsBelow(sorted: seq<string>, limits: Limits, given: Entries)
    requires Descending(sorted) && Elements(sorted) == FreshNames(given, limits) && 0 < limits.maxVersions < |sorted|
    ensures Pruned(given, limits.(maxVersions := 0)) - Elements(sorted[limits.maxVersions..]) == Pruned(given, limits)
  {
    var byAge := limits.(maxVersions := 0);
    var below := sorted[limits.maxVersions..];
    forall name | name in given ensures (Kept(given, byAge, name) && name !in below) <==> Kept(given, limits, name) {
      assert Fresh(given, limits, name) <==> Fresh(given, byAge, name);
      if Fresh(given, limits, name) {
        assert name in Elements(sorted);
        var i :| 0 <= i < |sorted| && sorted[i] == name;
        RankIsPosition(sorted, i);
        BelowMeansLater(sorted, limits.maxVersions, i);
      } else {
        assert name in below ==> name in Elements(sorted);
      }
    }
  }

  lemma BelowMeansLater(sorted: seq<string>, n: nat, i: nat)
    requires Descending(sorted) && i < |sorted| && n <= |sorted|
    ensures sorted[i] in sorted[n..] <==> i >= n
    ensures sorted[i] in sorted[..n] <==> i < n
  {
    if i >= n {
      assert sorted[n..][i - n] == sorted[i];
    }
    forall k | 0 <= k < |sorted| && k != i ensures sorted[k] != sorted[i] {
      LessIsTotal(sorted[k], sorted[i]);
    }
  }

  lemma NoSurplus(versions: seq<string>, limits: Limits, given: Entries)
    requires Distinct(versions) && Elements(versions) == FreshNames(given, limits)
    requires limits.maxVersions > 0 ==> |versions| <= limits.maxVersions
    ensures Pruned(given, limits.(maxVersions := 0)) == Pruned(given, limits)
  {
    var byAge := limits.(maxVersions := 0);
    DistinctBound(versions);
    forall name | name in given ensures Kept(given, byAge, name) <==> Kept(given, limits, name) {
      assert Fresh(given, limits, name) <==> Fresh(given, byAge, name);
      if Fresh(given, limits, name) {
        AboveIsFewer(FreshNames(given, limits), name);
      }
    }
  }

  lemma {:induction false} DistinctBound(names: seq<string>)
    ensures |Elements(names)| <= |names|
  {
    if names != [] {
      DistinctBound(names[..|names| - 1]);
      NextElement(names, |names| - 1);
      assert names[..|names|] == names;
    }
  }

  lemma Fewer(part: set<string>, all: set<string>, extra: string)
    requires part <= all && extra in all && extra !in part
    ensures |part| < |all|
  {
    Inside(part, all - {extra});
  }

  lemma {:induction false} Inside(part: set<string>, all: set<string>)
    requires part <= all
    ensures |part| <= |all|
    decreases part
  {
    if part != {} {
      var x :| x in part;
      Inside(part - {x}, all - {x});
    }
  }

  lemma AboveIsFewer(names: set<string>, name: string)
    requires name in names
    ensures |Above(names, name)| < |names|
  {
    LessIsTotal(name, name);
    Fewer(Above(names, name), names, name);
  }

  class Directory {
    var present: bool
    var entries: Entries

    constructor (entries: Entries)
      ensures present && this.entries == entries
    {
      this.present, this.entries := true, entries;
    }

    method Remove(name: string)
      modifies `entries
      ensures entries == old(entries) - {name}
    {
      entries := entries - {name};
    }

    method PruneOneDirectory(limits: Limits)
      modifies this
      ensures
        var kept := Pruned(old(entries), limits);
        if kept.Keys <= {SIDECAR} then !present && entries == map[]
        else present == old(present) && entries == kept
    {
      var versions := CollectVersions(entries);
      versions := RemoveOld(versions, limits);
      RemoveSurplus(versions, limits, old(entries));
      var onlySidecar := OnlySidecar(entries.Keys);
      if onlySidecar {
        present, entries := false, map[];
      }
    }

    /** Whatever is older than the cutoff goes, versions and autosave alike. */
    method RemoveOld(versions: seq<string>, limits: Limits) returns (left: seq<string>)
      requires Distinct(versions) && Elements(versions) == AllVersions(entries)
      modifies `entries
      ensures entries == Pruned(old(entries), limits.(maxVersions := 0))
      ensures Distinct(left) && Elements(left) == FreshNames(old(entries), limits)
    {
      ghost var given := entries;
      ghost var wanted := FreshNames(given, limits);
      left := versions;
      FreshAreVersions(given, limits);
      if limits.maxAgeDays > 0 {
        forall name | name in versions
          ensures ParseVersionTimestamp(name).Some? && (name in wanted <==> !(TimeOf(name) < limits.Cutoff()))
        {
          assert name in Elements(versions);
          InAllVersions(given, name);
        }
        left := RemoveOldVersions(versions, limits, wanted);
        if AUTOSAVE in entries && entries[AUTOSAVE].modified < limits.Cutoff() {
          Remove(AUTOSAVE);
        }
      }
      WithoutOld(given, limits, entries);
    }

    method RemoveOldVersions(versions: seq<string>, limits: Limits,
                             ghost wanted: set<string>) returns (left: seq<string>)
      requires limits.maxAgeDays > 0 && Distinct(versions) && wanted <= Elements(versions)
      requires forall name <- versions ::
        ParseVersionTimestamp(name).Some? && (name in wanted <==> !(TimeOf(name) < limits.Cutoff()))
      modifies `entries
      ensures entries == old(entries) - (Elements(versions) - wanted)
      ensures Distinct(left) && Elements(left) == wanted
    {
      left := [];
      for i := 0 to |versions|
        invariant Distinct(left) && Elements(left) == Elements(versions[..i]) * wanted
        invariant entries == old(entries) - (Elements(versions[..i]) - wanted)
      {
        var name := versions[i];
        NextElement(versions, i);
        Selects(versions[..i], name, left, wanted);
        if TimeOf(name) < limits.Cutoff() {
          Remove(name);
        } else {
          left := left + [name];
        }
      }
      AllSelected(versions, left, wanted);
      assert versions[..|versions|] == versions;
    }

    /** All but the greatest names of the versions left go, if there are too many. */
    method RemoveSurplus(versions: seq<string>, limits: Limits, ghost given: Entries)
      requires Distinct(versions) && Elements(versions) == FreshNames(given, limits)
      requires entries == Pruned(given, limits.(maxVersions := 0))
      modifies `entries
      ensures entries == Pruned(given, limits)
    {
      if limits.maxVersions > 0 && |versions| > limits.maxVersions {
        var sorted := SortDescending(versions);
        RemoveAll(sorted[limits.maxVersions..]);
        SurplusIsBelow(sorted, limits, given);
      } else {
        NoSurplus(versions, limits, given);
      }
    }

    method RemoveAll(names: seq<string>)
      modifies `entries
      ensures entries == old(entries) - Elements(names)
    {
      for i := 0 to |names|
        invariant entries == old(entries) - Elements(names[..i])
      {
        NextElement(names, i);
        Remove(names[i]);
      }
      assert names[..|names|] == names;
    }
  }
}
