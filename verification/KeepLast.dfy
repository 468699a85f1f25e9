/** Duplicate NEVRAs under keep-last, and the package accounting of the delayed dump
    (src/createrepo_c.c, `buildtimesort`, `handle_nevra_duplicates` and `main`). */
module KeepLast {
  import opened Basics
  import opened Sorting
  import opened Strings
  import opened Dumper
  import opened DumperSafety
  import opened DumperObject
  import opened DelayedDump

  datatype Rpm = Rpm(nevra: string, timeBuild: int, location: Option<string>, srpm: Option<string>)

  /** What each task loaded; None when it failed. */
  type Loads = seq<Option<Rpm>>

  // ---------------------------------------------------------------- the comparator

  /** The difference of build times is returned as a C int. */
  function BuildTimeSort(a: Rpm, b: Rpm): int {
    var result := a.timeBuild - b.timeBuild;
    if result != 0 then ToInt32(result) else Compare0(a.location, b.location)
  }

  /** The intended order: build time, then location. */
  predicate NotLater(a: Rpm, b: Rpm) {
    a.timeBuild < b.timeBuild || (a.timeBuild == b.timeBuild && Compare0(a.location, b.location) <= 0)
  }

  /** The same time and place, or an earlier time, or the same time and a location that stands before. */
  lemma NotLaterMeaning(a: Rpm, b: Rpm)
    ensures NotLater(a, b) <==>
      || a.timeBuild < b.timeBuild
      || (a.timeBuild == b.timeBuild && (a.location == b.location || StandsBefore(a.location, b.location)))
  {
    Compare0Meaning(a.location, b.location);
  }

  /** The comparator is right about two packages: it gives their build times and locations the order they have. */
  predicate IsRight(a: Rpm, b: Rpm) {
    && (BuildTimeSort(a, b) <= 0 <==> NotLater(a, b))
    && (BuildTimeSort(a, b) >= 0 <==> NotLater(b, a))
  }

  /** The difference of two build times keeps its sign when it is cut to 32 bits. */
  predicate SignSurvives(difference: int) {
    var low := difference % 0x1_0000_0000;
    if difference > 0 then 0 < low < 0x8000_0000 else if difference < 0 then 0x8000_0000 <= low else true
  }

  /** Exactly when the comparator is right about two packages, before, after and equal. */
  lemma BuildTimeSortIsRightIff(a: Rpm, b: Rpm)
    ensures IsRight(a, b) <==> SignSurvives(a.timeBuild - b.timeBuild)
  {
    Compare0IsTotalOrder(a.location, b.location, b.location);
  }

  /** Differences that an int holds survive. */
  lemma BuildTimeSortIsRightWithinInt(a: Rpm, b: Rpm)
    requires -0x8000_0000 <= a.timeBuild - b.timeBuild < 0x8000_0000
    ensures IsRight(a, b)
  {
    BuildTimeSortIsRightIff(a, b);
  }

  lemma NotLaterIsTotalOrder(a: Rpm, b: Rpm, c: Rpm)
    ensures NotLater(a, b) || NotLater(b, a)
    ensures NotLater(a, b) && NotLater(b, c) ==> NotLater(a, c)
    ensures NotLater(a, b) && NotLater(b, a) ==> a.timeBuild == b.timeBuild && a.location == b.location
  {
    Compare0IsTotalOrder(a.location, b.location, c.location);
  }

  /** Of two packages built 2^31 seconds apart or a little more the later one is taken for the earlier. */
  lemma FarBuildTimesAreMisordered(a: Rpm, b: Rpm)
    requires 0x8000_0000 <= a.timeBuild - b.timeBuild < 0x1_0000_0000
    ensures BuildTimeSort(a, b) < 0 && !NotLater(a, b)
  {
  }

  /** The comparator can even go round in a circle. */
  lemma BuildTimesGoRound(a: Rpm, b: Rpm, c: Rpm)
    requires a.timeBuild == 1 && b.timeBuild == 1_500_000_000 && c.timeBuild == 3_000_000_000
    ensures BuildTimeSort(a, b) < 0 && BuildTimeSort(b, c) < 0 && BuildTimeSort(c, a) < 0
  {
  }

  // ---------------------------------------------------------------- marking the duplicates

  ghost function Group(loads: Loads, nevra: string): set<nat> {
    set id | 0 <= id < |loads| && loads[id].Some? && loads[id].value.nevra == nevra
  }

  /** A list of the packages of one NEVRA, each once. */
  ghost predicate IsListOf(loads: Loads, nevra: string, list: seq<nat>) {
    && NoDuplicates(list)
    && forall id: nat :: id in list <==> id in Group(loads, nevra)
  }

  /** `nevra_table`: for each NEVRA that was loaded its packages, in whatever order. */
  ghost predicate GroupedTable(loads: Loads, table: map<string, seq<nat>>) {
    && (forall nevra :: nevra in table <==> Group(loads, nevra) != {})
    && (forall nevra :: nevra in table ==> IsListOf(loads, nevra, table[nevra]))
  }

  /** buildtimesort on task ids */
  function LocationCmp(loads: Loads): (nat, nat) -> int {
    (a: nat, b: nat) =>
      if a < |loads| && b < |loads| && loads[a].Some? && loads[b].Some?
      then BuildTimeSort(loads[a].value, loads[b].value) else 0
  }

  /** Every list after sorting. As the comparator is no order in general, all that a sort can promise is that no
      two neighbours are the wrong way round. */
  ghost predicate SortedTable(loads: Loads, table: map<string, seq<nat>>) {
    forall nevra :: nevra in table ==> InOrder(LocationCmp(loads), table[nevra])
  }

  /** All but the last of a list are skipped. */
  method HandleNevraDuplicates(locations: seq<nat>, keepLast: bool, skip: set<nat>)
    returns (skip': set<nat>, skipped: nat)
    requires NoDuplicates(locations) && forall id :: id in locations ==> id !in skip
    ensures |skip'| == |skip| + skipped
    ensures keepLast ==> forall id ::
      id in skip' <==> id in skip || (id in locations && id != locations[|locations| - 1])
    ensures !keepLast ==> skip' == skip
  {
    skip', skipped := skip, 0;
    for i := 0 to |locations|
      invariant |skip'| == |skip| + skipped
      invariant keepLast ==> forall id ::
        id in skip' <==> id in skip || exists j :: 0 <= j < i && j < |locations| - 1 && id == locations[j]
      invariant !keepLast ==> skip' == skip
    {
      if keepLast {
        if i < |locations| - 1 {
          skip' := skip' + {locations[i]};
          skipped := skipped + 1;
        }
      }
    }
  }

  /** The loop of `main` over the table, in the table's own (arbitrary) order `keys`. */
  method MarkDuplicates(loads: Loads, table: map<string, seq<nat>>, keys: seq<string>, keepLast: bool)
    returns (skip: set<nat>, skippedPkgs: nat)
    requires GroupedTable(loads, table) && NoDuplicates(keys) && forall k :: k in keys <==> k in table
    ensures skippedPkgs == |skip|
    ensures if keepLast then AllButLast(table, skip) else skip == {}
  {
    skip, skippedPkgs := {}, 0;
    for i := 0 to |keys|
      invariant skippedPkgs == |skip|
      invariant keepLast ==> forall id :: id in skip <==>
        exists k :: 0 <= k < i && id in table[keys[k]] && id != table[keys[k]][|table[keys[k]]| - 1]
      invariant !keepLast ==> skip == {}
    {
      var locations := table[keys[i]];
      if |locations| > 1 {
        forall id | id in locations
          ensures id !in skip
        {
          assert id in Group(loads, keys[i]);
          if k :| 0 <= k < i && id in table[keys[k]] {
            assert id in Group(loads, keys[k]);
          }
        }
        var marked, skipped := HandleNevraDuplicates(locations, keepLast, skip);
        skip, skippedPkgs := marked, skippedPkgs + skipped;
      }
    }
  }

  /** Marked by keep-last: every package of the table but the last of each list. */
  ghost predicate AllButLast(table: map<string, seq<nat>>, skip: set<nat>) {
    forall id :: id in skip <==>
      exists k :: k in table && id in table[k] && id != table[k][|table[k]| - 1]
  }

  lemma ListsTheGroup(loads: Loads, table: map<string, seq<nat>>, nevra: string)
    requires GroupedTable(loads, table) && nevra in table
    ensures table[nevra] != []
    ensures forall id :: id in table[nevra] <==> id in Group(loads, nevra)
  {
    var some :| some in Group(loads, nevra);
    assert some in table[nevra];
  }

  lemma SkippedOfGroup(loads: Loads, table: map<string, seq<nat>>, skip: set<nat>, nevra: string, id: nat)
    requires GroupedTable(loads, table) && AllButLast(table, skip) && nevra in table && id in table[nevra]
    ensures id in skip <==> id != table[nevra][|table[nevra]| - 1]
  {
    ListsTheGroup(loads, table, nevra);
    if id in skip {
      var k :| k in table && id in table[k] && id != table[k][|table[k]| - 1];
      assert id in Group(loads, k);
    }
  }

  /** Of every NEVRA exactly one package stays: the last one of its list. */
  lemma OneIsKept(loads: Loads, table: map<string, seq<nat>>, skip: set<nat>, nevra: string)
    requires GroupedTable(loads, table) && AllButLast(table, skip) && nevra in table
    ensures table[nevra] != []
    ensures Group(loads, nevra) - skip == {table[nevra][|table[nevra]| - 1]}
  {
    ListsTheGroup(loads, table, nevra);
    var list := table[nevra];
    var kept := list[|list| - 1];
    assert kept in list;
    forall id | id in Group(loads, nevra)
      ensures id in skip <==> id != kept
    {
      SkippedOfGroup(loads, table, skip, nevra, id);
    }
    assert Group(loads, nevra) - skip == {kept};
  }

  // ---------------------------------------------------------------- which one is kept

  /** No package of the group is later. */
  ghost predicate IsLatest(loads: Loads, nevra: string, id: nat) {
    && id in Group(loads, nevra)
    && forall other :: other in Group(loads, nevra) ==> NotLater(loads[other].value, loads[id].value)
  }

  /** However the list is sorted, keep-last keeps a latest package. */
  ghost predicate KeepsLatest(loads: Loads, nevra: string) {
    forall list :: IsListOf(loads, nevra, list) && list != [] && InOrder(LocationCmp(loads), list) ==>
      IsLatest(loads, nevra, list[|list| - 1])
  }

  /** The build time of a latest package stands out: cut to 32 bits, its distance to each earlier one is still
      a positive int. */
  ghost predicate LatestStandsOut(loads: Loads, nevra: string) {
    forall latest: nat, id: nat :: IsLatest(loads, nevra, latest) && id in Group(loads, nevra) ==>
      SignSurvives(loads[latest].value.timeBuild - loads[id].value.timeBuild)
  }

  lemma StandsOutIsAfter(loads: Loads, nevra: string, latest: nat, id: nat)
    requires IsLatest(loads, nevra, latest) && id in Group(loads, nevra)
    ensures SignSurvives(loads[latest].value.timeBuild - loads[id].value.timeBuild)
      <==> (LocationCmp(loads)(latest, id) > 0 || IsLatest(loads, nevra, id))
  {
    var a, b := loads[latest].value, loads[id].value;
    BuildTimeSortIsRightIff(a, b);
    NotLaterIsTotalOrder(a, b, b);
    assert NotLater(b, a);
    if NotLater(a, b) {
      forall other | other in Group(loads, nevra)
        ensures NotLater(loads[other].value, b)
      {
        NotLaterIsTotalOrder(loads[other].value, a, b);
      }
    } else {
      assert !IsLatest(loads, nevra, id);
    }
  }

  lemma SomeIsLatest(loads: Loads, nevra: string, ids: set<nat>) returns (latest: nat)
    requires ids != {} && ids <= Group(loads, nevra)
    ensures latest in ids && forall other :: other in ids ==> NotLater(loads[other].value, loads[latest].value)
    decreases |ids|
  {
    var id :| id in ids;
    NotLaterIsTotalOrder(loads[id].value, loads[id].value, loads[id].value);
    if ids == {id} {
      latest := id;
    } else {
      var best := SomeIsLatest(loads, nevra, ids - {id});
      latest := if NotLater(loads[id].value, loads[best].value) then best else id;
      forall other | other in ids
        ensures NotLater(loads[other].value, loads[latest].value)
      {
        NotLaterIsTotalOrder(loads[other].value, loads[best].value, loads[id].value);
        NotLaterIsTotalOrder(loads[id].value, loads[best].value, loads[id].value);
      }
    }
  }

  lemma LatestIsListed(loads: Loads, nevra: string, list: seq<nat>) returns (i: nat)
    requires IsListOf(loads, nevra, list) && list != []
    ensures i < |list| && IsLatest(loads, nevra, list[i])
  {
    assert list[0] in list;
    var latest := SomeIsLatest(loads, nevra, Group(loads, nevra));
    assert latest in list;
    i :| i < |list| && list[i] == latest;
  }

  /** Behind a latest package only a latest one can stand. */
  lemma NextIsLatest(loads: Loads, nevra: string, a: nat, b: nat)
    requires LatestStandsOut(loads, nevra) && IsLatest(loads, nevra, a) && b in Group(loads, nevra)
    requires LocationCmp(loads)(a, b) <= 0
    ensures IsLatest(loads, nevra, b)
  {
    StandsOutIsAfter(loads, nevra, a, b);
  }

  lemma StandingOutKeepsLatest(loads: Loads, nevra: string, list: seq<nat>)
    requires IsListOf(loads, nevra, list) && list != [] && InOrder(LocationCmp(loads), list)
    requires LatestStandsOut(loads, nevra)
    ensures IsLatest(loads, nevra, list[|list| - 1])
  {
    var i := LatestIsListed(loads, nevra, list);
    while i < |list| - 1
      invariant i < |list| && IsLatest(loads, nevra, list[i])
    {
      assert list[i + 1] in list;
      NextIsLatest(loads, nevra, list[i], list[i + 1]);
      i := i + 1;
    }
  }

  lemma LocationCmpIsTotal(loads: Loads)
    ensures Total(LocationCmp(loads))
  {
    forall a: nat, b: nat
      ensures LocationCmp(loads)(a, b) > 0 ==> LocationCmp(loads)(b, a) <= 0
    {
      if a < |loads| && b < |loads| && loads[a].Some? && loads[b].Some? {
        Compare0IsTotalOrder(loads[a].value.location, loads[b].value.location, None);
      }
    }
  }

  /** The ids of the group with (or without) those in `chosen`. */
  function Ids(loads: Loads, nevra: string, n: nat, chosen: set<nat>): (ids: seq<nat>)
    requires n <= |loads|
    ensures forall id :: id in ids <==> id < n && id in chosen && loads[id].Some? && loads[id].value.nevra == nevra
    ensures NoDuplicates(ids)
  {
    if n == 0 then []
    else
      var before := Ids(loads, nevra, n - 1, chosen);
      if n - 1 in chosen && loads[n - 1].Some? && loads[n - 1].value.nevra == nevra then before + [n - 1] else before
  }

  /** Inserting an element that may stand before some element leaves the last one last. */
  lemma {:induction false} InsertKeepsLast(cmp: (nat, nat) -> int, sorted: seq<nat>, x: nat, before: nat)
    requires before in sorted && cmp(x, before) <= 0
    ensures Insert(cmp, sorted, x) != []
    ensures Insert(cmp, sorted, x)[|Insert(cmp, sorted, x)| - 1] == sorted[|sorted| - 1]
  {
    if cmp(x, sorted[0]) > 0 {
      InsertKeepsLast(cmp, sorted[1..], x, before);
    }
  }

  lemma IsAmongSorted(cmp: (nat, nat) -> int, first: seq<nat>, rest: seq<nat>, x: nat)
    requires x in rest
    ensures x in Sort(cmp, first + rest)
  {
    SortKeeps(cmp, first + rest);
    assert x in multiset(first + rest);
    assert x in multiset(Sort(cmp, first + rest));
  }

  lemma {:induction false} SortKeepsLast(cmp: (nat, nat) -> int, first: seq<nat>, rest: seq<nat>, before: nat)
    requires before in rest && forall x :: x in first ==> cmp(x, before) <= 0
    ensures Sort(cmp, first + rest) != [] && Sort(cmp, rest) != []
    ensures var sorted := Sort(cmp, first + rest);
      sorted[|sorted| - 1] == Sort(cmp, rest)[|Sort(cmp, rest)| - 1]
  {
    if first == [] {
      IsAmongSorted(cmp, [], rest, before);
      assert first + rest == rest == [] + rest;
    } else {
      SortKeepsLast(cmp, first[1..], rest, before);
      assert (first + rest)[1..] == first[1..] + rest && (first + rest)[0] == first[0];
      IsAmongSorted(cmp, first[1..], rest, before);
      InsertKeepsLast(cmp, Sort(cmp, first[1..] + rest), first[0], before);
    }
  }

  /** When a latest package does not stand out from an earlier one, some sorted list ends with an earlier one. */
  lemma NotStandingOutLosesLatest(loads: Loads, nevra: string, latest: nat, early: nat) returns (list: seq<nat>)
    requires IsLatest(loads, nevra, latest) && early in Group(loads, nevra)
    requires !SignSurvives(loads[latest].value.timeBuild - loads[early].value.timeBuild)
    ensures IsListOf(loads, nevra, list) && list != [] && InOrder(LocationCmp(loads), list)
    ensures !IsLatest(loads, nevra, list[|list| - 1])
  {
    var cmp := LocationCmp(loads);
    var bests := set id | id in Group(loads, nevra) && IsLatest(loads, nevra, id);
    var others := Group(loads, nevra) - bests;
    var first, rest := Ids(loads, nevra, |loads|, bests), Ids(loads, nevra, |loads|, others);
    StandsOutIsAfter(loads, nevra, latest, early);
    forall x | x in first
      ensures cmp(x, early) <= 0
    {
      LatestCompareAlike(loads, nevra, latest, x, early);
    }
    LocationCmpIsTotal(loads);
    SortPutsInOrder(cmp, first + rest);
    SortKeepsLast(cmp, first, rest, early);
    list := Sort(cmp, first + rest);
    SortIsListOf(loads, nevra, first, rest);
    LastIsAmong(cmp, rest);
  }

  lemma LatestCompareAlike(loads: Loads, nevra: string, a: nat, b: nat, id: nat)
    requires IsLatest(loads, nevra, a) && IsLatest(loads, nevra, b) && id in Group(loads, nevra)
    ensures LocationCmp(loads)(a, id) == LocationCmp(loads)(b, id)
  {
    NotLaterIsTotalOrder(loads[a].value, loads[b].value, loads[a].value);
  }

  lemma LastIsAmong(cmp: (nat, nat) -> int, list: seq<nat>)
    requires list != []
    ensures Sort(cmp, list) != [] && Sort(cmp, list)[|Sort(cmp, list)| - 1] in list
  {
    SortKeeps(cmp, list);
    SameMembers(Sort(cmp, list), list);
  }

  lemma DisjointHaveNoDuplicates(first: seq<nat>, rest: seq<nat>)
    requires NoDuplicates(first) && NoDuplicates(rest) && forall id :: id in first ==> id !in rest
    ensures NoDuplicates(first + rest)
  {
    forall i, j | 0 <= i < j < |first + rest|
      ensures (first + rest)[i] != (first + rest)[j]
    {
      assert i < |first| ==> first[i] in first;
      assert j >= |first| ==> rest[j - |first|] in rest;
    }
  }

  lemma SortIsListOf(loads: Loads, nevra: string, first: seq<nat>, rest: seq<nat>)
    requires NoDuplicates(first) && NoDuplicates(rest) && forall id :: id in first ==> id !in rest
    requires forall id: nat :: id in first || id in rest <==> id in Group(loads, nevra)
    ensures IsListOf(loads, nevra, Sort(LocationCmp(loads), first + rest))
  {
    var sorted := Sort(LocationCmp(loads), first + rest);
    DisjointHaveNoDuplicates(first, rest);
    SortKeeps(LocationCmp(loads), first + rest);
    PermutationKeepsNoDuplicates(first + rest, sorted);
    forall id: nat
      ensures id in sorted <==> id in Group(loads, nevra)
    {
      assert id in sorted <==> id in multiset(sorted);
      assert id in multiset(first + rest) <==> id in first || id in rest;
    }
    assert NoDuplicates(sorted);
  }

  /** Whatever the build times, the packages of a NEVRA can be sorted. */
  lemma SortedListExists(loads: Loads, nevra: string) returns (list: seq<nat>)
    ensures IsListOf(loads, nevra, list) && InOrder(LocationCmp(loads), list)
  {
    var ids := Ids(loads, nevra, |loads|, Group(loads, nevra));
    assert [] + ids == ids;
    SortIsListOf(loads, nevra, [], ids);
    LocationCmpIsTotal(loads);
    SortPutsInOrder(LocationCmp(loads), ids);
    list := Sort(LocationCmp(loads), ids);
  }

  /** Keep-last keeps a latest package of the NEVRA, however the list is sorted, if and only if the build times
      of its latest packages stand out. */
  lemma KeepsLatestIff(loads: Loads, nevra: string)
    ensures KeepsLatest(loads, nevra) <==> LatestStandsOut(loads, nevra)
  {
    if LatestStandsOut(loads, nevra) {
      forall list | IsListOf(loads, nevra, list) && list != [] && InOrder(LocationCmp(loads), list)
        ensures IsLatest(loads, nevra, list[|list| - 1])
      {
        StandingOutKeepsLatest(loads, nevra, list);
      }
    } else {
      var latest: nat, early: nat :| IsLatest(loads, nevra, latest) && early in Group(loads, nevra)
        && !SignSurvives(loads[latest].value.timeBuild - loads[early].value.timeBuild);
      var list := NotStandingOutLosesLatest(loads, nevra, latest, early);
    }
  }

  /** Of every NEVRA whose latest packages stand out exactly one package stays, and it is a latest one by build
      time and location. */
  lemma OneKeptAndMaximal(loads: Loads, table: map<string, seq<nat>>, skip: set<nat>, nevra: string)
    requires GroupedTable(loads, table) && SortedTable(loads, table) && AllButLast(table, skip)
    requires nevra in table && LatestStandsOut(loads, nevra)
    ensures exists kept :: Group(loads, nevra) - skip == {kept} && IsLatest(loads, nevra, kept)
  {
    OneIsKept(loads, table, skip, nevra);
    KeepsLatestIff(loads, nevra);
    var kept := table[nevra][|table[nevra]| - 1];
    assert Group(loads, nevra) - skip == {kept} && IsLatest(loads, nevra, kept);
  }

  // ---------------------------------------------------------------- accounting

  function DelayedTasks(loads: Loads, skip: set<nat>): seq<DelayedTask> {
    seq(|loads|, i requires 0 <= i < |loads| =>
      if loads[i].None? then None else Some(DelayedPkg(loads[i].value.srpm, i in skip, true)))
  }

  function LoadOutcomes(loads: Loads): seq<Outcome> {
    seq(|loads|, i requires 0 <= i < |loads| => if loads[i].None? then Failed else Loaded(loads[i].value.srpm))
  }

  function Without(log: seq<Entry>, skip: set<nat>): (ids: seq<nat>) {
    if log == [] then []
    else
      var last := log[|log| - 1].id;
      Without(log[..|log| - 1], skip) + if last in skip then [] else [last]
  }

  /** The delayed output is the ordered dump of everything loaded with the skipped packages removed. */
  lemma DelayedIsOrderedWithoutSkipped(loads: Loads, skip: set<nat>, n: nat)
    requires n <= |loads|
    ensures Without(Sequential(Outcomes(DelayedTasks(loads, skip)), n), {})
         == Without(Sequential(LoadOutcomes(loads), n), skip)
  {
    WithoutFailing(Outcomes(DelayedTasks(loads, skip)), LoadOutcomes(loads), skip, n);
  }

  /** Turning the skipped tasks into failing ones takes them out of the sequential log. */
  lemma {:induction false} WithoutFailing(a: seq<Outcome>, b: seq<Outcome>, skip: set<nat>, n: nat)
    requires n <= |a| == |b| && forall i :: 0 <= i < |a| ==> (a[i].Loaded? <==> b[i].Loaded? && i !in skip)
    ensures Without(Sequential(a, n), {}) == Without(Sequential(b, n), skip)
  {
    if n > 0 {
      WithoutFailing(a, b, skip, n - 1);
      WithoutStep(a, n, {});
      WithoutStep(b, n, skip);
    }
  }

  lemma WithoutStep(outcomes: seq<Outcome>, n: nat, skip: set<nat>)
    requires 0 < n <= |outcomes|
    ensures Without(Sequential(outcomes, n), skip)
      == Without(Sequential(outcomes, n - 1), skip) + if outcomes[n - 1].Loaded? && n - 1 !in skip then [n - 1] else []
  {
    if outcomes[n - 1].Loaded? {
      WithoutLast(Sequential(outcomes, n - 1), Entry(n - 1, StartsChunk(outcomes, n - 1)), skip);
    }
  }

  lemma WithoutLast(log: seq<Entry>, entry: Entry, skip: set<nat>)
    ensures Without(log + [entry], skip) == Without(log, skip) + if entry.id in skip then [] else [entry.id]
  {
    assert (log + [entry])[..|log|] == log;
  }

  /** What the delayed dump makes of each task: nothing of one that failed to load or is skipped, and otherwise
      the package with its own source rpm, by which chunks are ended. */
  lemma DelayedOutcome(loads: Loads, skip: set<nat>, i: nat)
    requires i < |loads|
    ensures |Outcomes(DelayedTasks(loads, skip))| == |loads|
    ensures Outcomes(DelayedTasks(loads, skip))[i]
      == if loads[i].None? || i in skip then Failed else Loaded(loads[i].value.srpm)
  {
  }

  ghost function FailedLoads(loads: Loads): set<nat> {
    set id | 0 <= id < |loads| && loads[id].None?
  }

  lemma SkippedAreLoaded(loads: Loads, table: map<string, seq<nat>>, skip: set<nat>)
    requires GroupedTable(loads, table) && AllButLast(table, skip)
    ensures forall id :: id in skip ==> id < |loads| && loads[id].Some?
  {
    forall id | id in skip
      ensures id < |loads| && loads[id].Some?
    {
      var k :| k in table && id in table[k] && id != table[k][|table[k]| - 1];
      assert id in Group(loads, k);
    }
  }

  lemma EveryTaskIsAccountedFor(loads: Loads, skip: set<nat>)
    requires forall id :: id in skip ==> id < |loads| && loads[id].Some?
    ensures var outcomes := Outcomes(DelayedTasks(loads, skip));
      |loads| == |Sequential(outcomes, |loads|)| + |FailedLoads(loads)| + |skip|
  {
    var outcomes := Outcomes(DelayedTasks(loads, skip));
    SequentialLength(outcomes, |loads|);
    assert FailedIds(outcomes, |loads|) == FailedLoads(loads) + skip;
    assert FailedLoads(loads) !! skip;
  }

  lemma NoDumpFails(loads: Loads, skip: set<nat>)
    ensures FirstBad(DelayedTasks(loads, skip)) == |loads|
  {
  }

  lemma StartsAtZero(outcomes: seq<Outcome>, ext: bool)
    ensures StandsAt(Init(Config([], 0, ext)).shared, outcomes, 0)
  {
  }

  /** The end of `main` with a delayed dump in which every XML dump succeeds: mark duplicates, announce
      `task_count - skipped` packages in the headers, dump. Every task is written, failed or skipped, and
      the headers have to be rewritten exactly when some package failed. */
  method DelayedDumpMain(loads: Loads, table: map<string, seq<nat>>, keys: seq<string>, keepLast: bool, ext: bool)
    returns (ud: UserData, skip: set<nat>, header: int, rewrite: bool)
    requires GroupedTable(loads, table) && NoDuplicates(keys) && forall k :: k in keys <==> k in table
    ensures fresh(ud) && ud.filelistsExt == ext
    ensures if keepLast then AllButLast(table, skip) else skip == {}
    ensures StandsAt(ud.View(), Outcomes(DelayedTasks(loads, skip)), |loads|)
    ensures |loads| == ud.packageCount + |FailedLoads(loads)| + |skip|
    ensures header == |loads| - |skip|
    ensures rewrite <==> FailedLoads(loads) != {}
  {
    ud := new UserData(|loads|, ext);
    assert ud.View() == Init(Config([], 0, ext)).shared;
    var skipped: nat;
    skip, skipped := MarkDuplicates(loads, table, keys, keepLast);
    if keepLast {
      SkippedAreLoaded(loads, table, skip);
    }
    EveryTaskIsAccountedFor(loads, skip);
    header := |loads| - skipped;
    var tasks := DelayedTasks(loads, skip);
    NoDumpFails(loads, skip);
    StartsAtZero(Outcomes(tasks), ext);
    var stuck := DelayedDumpRun(ud, tasks);
    assert ud.View().packageCount == ud.packageCount;
    rewrite := header != ud.packageCount;
  }
}
