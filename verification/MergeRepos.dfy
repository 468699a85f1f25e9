/** `add_package` and `merge_repos` of src/mergerepo_c.c on the table they update, with the filters that decide
    which packages are offered to the policies at all. */
module MergeRepos {
  import opened Basics
  import opened Sorting
  import opened Versions
  import opened Packages
  import opened Nevra
  import opened Koji
  import opened Merge

  // ---------------------------------------------------------------- the filters

  /** `arch_list`: NULL (here empty) lets every architecture through. */
  predicate RightArch(archs: seq<string>, p: Package) {
    archs == [] || (p.arch.Some? && p.arch.value in archs)
  }

  /** Both filters, architecture first; only packages of a right architecture reach `koji_allowed`. */
  function Admit(archs: seq<string>, koji: Option<Stuff>, p: Package): (bool, Option<Stuff>) {
    if !RightArch(archs, p) then (false, koji)
    else if koji.None? then (true, koji)
    else
      var (allowed, after) := AllowedStep(koji.value, p);
      (allowed, Some(after))
  }

  function Admitted(archs: seq<string>, koji: Option<Stuff>, offers: seq<Offer>): (seq<Offer>, Option<Stuff>)
    decreases |offers|
  {
    if offers == [] then ([], koji)
    else
      var n := |offers| - 1;
      var (before, mid) := Admitted(archs, koji, offers[..n]);
      var (allowed, after) := Admit(archs, mid, offers[n].pkg);
      (if allowed then before + [offers[n]] else before, after)
  }

  function OfRightArch(archs: seq<string>, offers: seq<Offer>): seq<Package> {
    if offers == [] then []
    else
      var p := offers[|offers| - 1].pkg;
      OfRightArch(archs, offers[..|offers| - 1]) + if RightArch(archs, p) then [p] else []
  }

  lemma AdmittedStep(archs: seq<string>, koji: Option<Stuff>, offers: seq<Offer>)
    requires offers != []
    ensures var n := |offers| - 1;
      var (before, mid) := Admitted(archs, koji, offers[..n]);
      var (allowed, after) := Admit(archs, mid, offers[n].pkg);
      Admitted(archs, koji, offers) == (if allowed then before + [offers[n]] else before, after)
  {
  }

  lemma AcceptStep(stuff: Stuff, ps: seq<Package>, p: Package)
    ensures var (before, mid) := Accept(stuff, ps);
      var (allowed, after) := AllowedStep(mid, p);
      Accept(stuff, ps + [p]) == (if allowed then before + [p] else before, after)
  {
    assert (ps + [p])[..|ps|] == ps;
  }

  /** The admitted packages are those the Koji filter accepts among those of a right architecture. */
  lemma {:induction false} AdmittedAreAccepted(archs: seq<string>, stuff: Stuff, offers: seq<Offer>)
    ensures var (admitted, after) := Admitted(archs, Some(stuff), offers);
      var (accepted, last) := Accept(stuff, OfRightArch(archs, offers));
      Pkgs(admitted) == accepted && after == Some(last)
  {
    if offers != [] {
      var n := |offers| - 1;
      AdmittedAreAccepted(archs, stuff, offers[..n]);
      AdmittedStep(archs, Some(stuff), offers);
      var (before, mid) := Admitted(archs, Some(stuff), offers[..n]);
      var ps := OfRightArch(archs, offers[..n]);
      AcceptStep(stuff, ps, offers[n].pkg);
      assert Pkgs(before + [offers[n]]) == Pkgs(before) + [offers[n].pkg];
      assert ps + [] == ps;
    }
  }

  /** A Koji merge of a fresh state offers the policies only packages whose source rpm is allowed, and in
      non-simple mode no two with one NVRA. */
  lemma KojiMergeAdmitsAllowed(archs: seq<string>, stuff: Stuff, offers: seq<Offer>)
    requires stuff.seenRpms.Some? ==> stuff.seenRpms.value == {}
    ensures var ps := Pkgs(Admitted(archs, Some(stuff), offers).0);
      && (forall p :: p in ps ==> SrpmAllowed(stuff, p) && RightArch(archs, p))
      && (Tracks(stuff) ==> DistinctNvras(ps))
  {
    AdmittedAreAccepted(archs, stuff, offers);
    AcceptedAreAllowed(stuff, OfRightArch(archs, offers));
    AdmittedHaveRightArch(archs, Some(stuff), offers);
  }

  /** The whole of a non-simple Koji merge: once `koji_stuff_prepare` has chosen the source rpms of `repos`, every
      package that is admitted with a source rpm carries the one of the first repository that offers that name,
      and there is none newer in it. */
  lemma AdmittedCarryChosen(vercmp: Vercmp, blocked: Option<set<string>>, repos: seq<Repo>, table: map<string, SrpmVal>,
                            archs: seq<string>, offers: seq<Offer>, p: Package)
    requires AllChosen(vercmp, repos, table)
    requires p in Pkgs(Admitted(archs, Some(Stuff(blocked, Some(table), Some({}), false)), offers).0)
    requires p.sourceRpm.Some?
    ensures Valid(p.sourceRpm.value)
    ensures blocked.Some? ==> NameOf(p.sourceRpm.value) !in blocked.value
    ensures exists r :: Chosen(vercmp, repos, NameOf(p.sourceRpm.value), Some(SrpmVal(r, p.sourceRpm.value)))
  {
    var stuff := Stuff(blocked, Some(table), Some({}), false);
    KojiMergeAdmitsAllowed(archs, stuff, offers);
    assert SrpmAllowed(stuff, p);
    var name := NameOf(p.sourceRpm.value);
    assert HasChosen(vercmp, repos, table, name);
    assert Lookup(table, name) == Some(SrpmVal(table[name].repoId, p.sourceRpm.value));
  }

  /** The converse: a package of a right architecture is not lost when it has no source rpm, or the chosen one of
      a name that is not blocked. It is admitted, unless one with its NVRA was admitted before it. */
  lemma ChosenAreAdmitted(blocked: Option<set<string>>, table: map<string, SrpmVal>, archs: seq<string>,
                          offers: seq<Offer>, o: Offer)
    requires o in offers && (archs == [] || (o.pkg.arch.Some? && o.pkg.arch.value in archs))
    requires o.pkg.sourceRpm.Some? ==>
      var parsed := SplitRpmFilename(o.pkg.sourceRpm.value);
      && parsed.Some?
      && (blocked.Some? ==> parsed.value.name !in blocked.value)
      && parsed.value.name in table && table[parsed.value.name].sourceRpm == o.pkg.sourceRpm.value
    ensures Nvra(o.pkg) in Nvras(Pkgs(Admitted(archs, Some(Stuff(blocked, Some(table), Some({}), false)), offers).0))
  {
    var stuff := Stuff(blocked, Some(table), Some({}), false);
    AdmittedAreAccepted(archs, stuff, offers);
    AcceptedAreAllowed(stuff, OfRightArch(archs, offers));
    OfRightArchHas(archs, offers, o);
    var accepted := Accept(stuff, OfRightArch(archs, offers)).0;
    assert o.pkg in OfRightArch(archs, offers) && SrpmAllowed(stuff, o.pkg);
    if o.pkg !in accepted {
      assert Nvra(o.pkg) in Nvras(accepted);
    }
  }

  /** In simple mode nothing but the name on the list of blocked ones keeps a package out. */
  lemma SimpleAdmits(blocked: Option<set<string>>, table: map<string, SrpmVal>, seen: set<string>, archs: seq<string>,
                     offers: seq<Offer>, o: Offer)
    requires o in offers && (archs == [] || (o.pkg.arch.Some? && o.pkg.arch.value in archs)) && seen == {}
    requires o.pkg.sourceRpm.Some? ==>
      var parsed := SplitRpmFilename(o.pkg.sourceRpm.value);
      parsed.Some? && (blocked.Some? ==> parsed.value.name !in blocked.value)
    ensures o.pkg in Pkgs(Admitted(archs, Some(Stuff(blocked, Some(table), Some(seen), true)), offers).0)
  {
    var stuff := Stuff(blocked, Some(table), Some(seen), true);
    AdmittedAreAccepted(archs, stuff, offers);
    AcceptedAreAllowed(stuff, OfRightArch(archs, offers));
    OfRightArchHas(archs, offers, o);
    assert SrpmAllowed(stuff, o.pkg);
  }

  lemma {:induction false} OfRightArchHas(archs: seq<string>, offers: seq<Offer>, o: Offer)
    requires o in offers && RightArch(archs, o.pkg)
    ensures o.pkg in OfRightArch(archs, offers)
  {
    var n := |offers| - 1;
    assert offers == offers[..n] + [offers[n]];
    if o != offers[n] {
      OfRightArchHas(archs, offers[..n], o);
    }
  }

  /** Without Koji everything of a right architecture is admitted, and nothing else. */
  lemma {:induction false} AdmittedWithoutKoji(archs: seq<string>, offers: seq<Offer>, o: Offer)
    ensures o in Admitted(archs, None, offers).0
      <==> o in offers && (archs == [] || (o.pkg.arch.Some? && o.pkg.arch.value in archs))
    ensures Admitted(archs, None, offers).1 == None
  {
    if offers != [] {
      var n := |offers| - 1;
      AdmittedWithoutKoji(archs, offers[..n], o);
      AdmittedStep(archs, None, offers);
      assert offers == offers[..n] + [offers[n]];
    }
  }

  lemma {:induction false} AdmittedHaveRightArch(archs: seq<string>, koji: Option<Stuff>, offers: seq<Offer>)
    ensures forall o :: o in Admitted(archs, koji, offers).0 ==> RightArch(archs, o.pkg)
  {
    if offers != [] {
      AdmittedStep(archs, koji, offers);
      AdmittedHaveRightArch(archs, koji, offers[..|offers| - 1]);
    }
  }

  // ---------------------------------------------------------------- the repositories

  /** A list entry: NULL, a repository whose metadata cannot be loaded, or its path and its packages with
      their own base URLs in the order the table iteration yields them. */
  datatype RepoEntry =
    | BadLocation
    | Unloadable
    | Repository(path: Option<string>, packages: seq<(Package, Option<string>)>)

  /** With omit_baseurl no path is used, and with Koji none for the first repository. */
  function PathFor(path: Option<string>, omitBaseurl: bool, koji: bool, repoId: nat): Option<string> {
    if omitBaseurl || (koji && repoId == 0) then None else path
  }

  function OffersOf(repo: RepoEntry, omitBaseurl: bool, koji: bool, repoId: nat): seq<Offer>
    requires repo.Repository?
  {
    seq(|repo.packages|, i requires 0 <= i < |repo.packages| =>
      Offer(repo.packages[i].0, repo.packages[i].1, PathFor(repo.path, omitBaseurl, koji, repoId)))
  }

  predicate AreReadable(repos: seq<RepoEntry>, n: nat)
    requires n <= |repos|
  {
    forall i :: 0 <= i < n ==> repos[i].Repository?
  }

  /** The packages of the first `n` repositories. */
  function AllOffers(repos: seq<RepoEntry>, n: nat, omitBaseurl: bool, koji: bool): seq<Offer>
    requires n <= |repos| && AreReadable(repos, n)
  {
    if n == 0 then [] else AllOffers(repos, n - 1, omitBaseurl, koji) + OffersOf(repos[n - 1], omitBaseurl, koji, n - 1)
  }

  /** How many packages the first `n` repositories hold. */
  function StartOf(repos: seq<RepoEntry>, n: nat): nat
    requires n <= |repos| && AreReadable(repos, n)
  {
    if n == 0 then 0 else StartOf(repos, n - 1) + |repos[n - 1].packages|
  }

  /** What is offered: the packages of the repositories one after the other, each with its own base URL, and with
      the path of its repository unless base URLs are omitted or it is the first repository of a Koji merge. */
  lemma {:induction false} AllOffersAre(repos: seq<RepoEntry>, n: nat, omitBaseurl: bool, koji: bool, i: nat, j: nat)
    requires i < n <= |repos| && AreReadable(repos, n) && j < |repos[i].packages|
    ensures |AllOffers(repos, n, omitBaseurl, koji)| == StartOf(repos, n)
    ensures StartOf(repos, i) + j < StartOf(repos, n)
    ensures AllOffers(repos, n, omitBaseurl, koji)[StartOf(repos, i) + j]
      == Offer(repos[i].packages[j].0, repos[i].packages[j].1,
               if omitBaseurl || (koji && i == 0) then None else repos[i].path)
  {
    AllOffersLength(repos, n - 1, omitBaseurl, koji);
    if i < n - 1 {
      AllOffersAre(repos, n - 1, omitBaseurl, koji, i, j);
    }
  }

  lemma {:induction false} AllOffersLength(repos: seq<RepoEntry>, n: nat, omitBaseurl: bool, koji: bool)
    requires n <= |repos| && AreReadable(repos, n)
    ensures |AllOffers(repos, n, omitBaseurl, koji)| == StartOf(repos, n)
  {
    if n > 0 {
      AllOffersLength(repos, n - 1, omitBaseurl, koji);
    }
  }

  /** How many repositories are read before the loop ends. */
  function ReadCount(repos: seq<RepoEntry>): (n: nat)
    ensures n <= |repos| && (n < |repos| ==> !repos[n].Repository?)
    ensures AreReadable(repos, n)
  {
    if repos == [] || !repos[0].Repository? then 0 else 1 + ReadCount(repos[1..])
  }

  lemma {:induction false} ReadCountIs(repos: seq<RepoEntry>, n: nat)
    requires n <= |repos| && (n < |repos| ==> !repos[n].Repository?) && AreReadable(repos, n)
    ensures ReadCount(repos) == n
  {
    if n > 0 {
      ReadCountIs(repos[1..], n - 1);
    }
  }

  /** Table, Koji state and count after a sequence of offers. */
  function Merging(vercmp: Vercmp, how: MergeMethod, archs: seq<string>, koji: Option<Stuff>, offers: seq<Offer>)
    : (r: (Table, Option<Stuff>, int))
    ensures forall n :: n in r.0 ==> r.0[n] != []
    ensures r.2 >= 0
  {
    var (admitted, after) := Admitted(archs, koji, offers);
    var (table, count) := MergeAll(vercmp, how, admitted);
    (table, after, count)
  }

  lemma MergingNothing(vercmp: Vercmp, how: MergeMethod, archs: seq<string>, koji: Option<Stuff>)
    ensures Merging(vercmp, how, archs, koji, []) == (map[], koji, 0)
  {
  }

  lemma MergingStep(vercmp: Vercmp, how: MergeMethod, archs: seq<string>, koji: Option<Stuff>, offers: seq<Offer>, o: Offer)
    ensures var before := Merging(vercmp, how, archs, koji, offers);
      var (allowed, after) := Admit(archs, before.1, o.pkg);
      var (code, table) := AddPackage(vercmp, how, before.0, o);
      Merging(vercmp, how, archs, koji, offers + [o])
      == if allowed then (table, after, if code == 1 then before.2 + 1 else before.2) else (before.0, after, before.2)
  {
    var admitted := Admitted(archs, koji, offers).0;
    assert (offers + [o])[..|offers|] == offers;
    assert (admitted + [o])[..|admitted|] == admitted;
  }

  /** What has been offered once `i` packages of a repository are through. */
  function UpTo(offered: seq<Offer>, offers: seq<Offer>, i: nat): seq<Offer> {
    if i == 0 || i > |offers| then offered else UpTo(offered, offers, i - 1) + [offers[i - 1]]
  }

  lemma UpToNext(offered: seq<Offer>, offers: seq<Offer>, i: nat)
    requires i < |offers|
    ensures UpTo(offered, offers, i + 1) == UpTo(offered, offers, i) + [offers[i]]
  {
  }

  lemma UpToAll(offered: seq<Offer>, offers: seq<Offer>)
    ensures UpTo(offered, offers, |offers|) == offered + offers
  {
    UpToIs(offered, offers, |offers|);
    assert offers[..|offers|] == offers;
  }

  lemma {:induction false} UpToIs(offered: seq<Offer>, offers: seq<Offer>, i: nat)
    requires i <= |offers|
    ensures UpTo(offered, offers, i) == offered + offers[..i]
  {
    if i > 0 {
      UpToIs(offered, offers, i - 1);
      assert offers[..i] == offers[..i - 1] + [offers[i - 1]];
    }
  }

  /** A package of that name and architecture is in the table. */
  ghost predicate HasEntry(table: Table, p: Package) {
    exists x :: x in Listed(table, p.name) && x.pkg.arch == p.arch
  }

  lemma KeepAllKeepsSome(vercmp: Vercmp, how: MergeMethod, ps: seq<Package>)
    ensures KeepAll(vercmp, how, ps) == [] <==> ps == []
  {
  }

  lemma {:induction false} SelectHas(offers: seq<Offer>, o: Offer)
    requires o in offers
    ensures o.pkg in Select(offers, o.pkg.name, o.pkg.arch)
  {
    var n := |offers| - 1;
    assert offers == offers[..n] + [offers[n]];
    if o != offers[n] {
      SelectHas(offers[..n], o);
    }
  }

  /** Nothing that is offered to a policy goes without an entry of its name and architecture. */
  lemma OfferedHasEntry(vercmp: Vercmp, how: MergeMethod, offers: seq<Offer>, o: Offer)
    requires o in offers
    ensures HasEntry(MergeAll(vercmp, how, offers).0, o.pkg)
  {
    var p := o.pkg;
    var list := Listed(MergeAll(vercmp, how, offers).0, p.name);
    TableIsReference(vercmp, how, offers, p.name, p.arch);
    SelectHas(offers, o);
    KeepAllKeepsSome(vercmp, how, Select(offers, p.name, p.arch));
    SameMembers(OfArch(list, p.arch), KeepAll(vercmp, how, Select(offers, p.name, p.arch)));
    OfArchMembers(list, p.arch);
    assert OfArch(list, p.arch)[0] in OfArch(list, p.arch);
    var i :| 0 <= i < |list| && list[i].pkg == OfArch(list, p.arch)[0] && list[i].pkg.arch == p.arch;
    assert list[i] in list;
  }

  /** Every package that is admitted from a readable repository ends up with an entry. */
  ghost predicate AllMerged(archs: seq<string>, koji: Option<Stuff>, offers: seq<Offer>, table: Table) {
    forall o :: o in Admitted(archs, koji, offers).0 ==> HasEntry(table, o.pkg)
  }

  lemma AdmittedAreMerged(vercmp: Vercmp, how: MergeMethod, archs: seq<string>, koji: Option<Stuff>, offers: seq<Offer>)
    ensures AllMerged(archs, koji, offers, Merging(vercmp, how, archs, koji, offers).0)
  {
    forall o | o in Admitted(archs, koji, offers).0
      ensures HasEntry(MergeAll(vercmp, how, Admitted(archs, koji, offers).0).0, o.pkg)
    {
      OfferedHasEntry(vercmp, how, Admitted(archs, koji, offers).0, o);
    }
  }

  lemma MergedWithoutKoji(vercmp: Vercmp, how: MergeMethod, archs: seq<string>, offers: seq<Offer>, o: Offer)
    requires o in offers && (archs == [] || (o.pkg.arch.Some? && o.pkg.arch.value in archs))
    ensures HasEntry(Merging(vercmp, how, archs, None, offers).0, o.pkg)
  {
    AdmittedWithoutKoji(archs, offers, o);
    AdmittedAreMerged(vercmp, how, archs, None, offers);
  }

  /** Without Koji: every package of a right architecture in a readable repository ends up with an entry. */
  lemma EveryPackageIsMerged(vercmp: Vercmp, how: MergeMethod, archs: seq<string>, repos: seq<RepoEntry>, n: nat,
                             omitBaseurl: bool, i: nat, j: nat)
    requires i < n <= |repos| && AreReadable(repos, n) && j < |repos[i].packages|
    requires var p := repos[i].packages[j].0; archs == [] || (p.arch.Some? && p.arch.value in archs)
    ensures HasEntry(Merging(vercmp, how, archs, None, AllOffers(repos, n, omitBaseurl, false)).0, repos[i].packages[j].0)
  {
    AllOffersAre(repos, n, omitBaseurl, false, i, j);
    var o := AllOffers(repos, n, omitBaseurl, false)[StartOf(repos, i) + j];
    MergedWithoutKoji(vercmp, how, archs, AllOffers(repos, n, omitBaseurl, false), o);
  }

  // ---------------------------------------------------------------- the table in place

  class Merged {
    var table: Table
    var koji: Option<Stuff>
    const how: MergeMethod
    const archs: seq<string>

    constructor (how: MergeMethod, archs: seq<string>, koji: Option<Stuff>)
      ensures table == map[] && this.koji == koji && this.how == how && this.archs == archs
    {
      table, this.koji, this.how, this.archs := map[], koji, how, archs;
    }

    ghost predicate Valid()
      reads this
    {
      forall n :: n in table ==> table[n] != []
    }

    /** add_package: the filters, then the scan of the list of the package's name. */
    method Add(vercmp: Vercmp, o: Offer) returns (code: int)
      requires Valid()
      modifies this
      ensures Valid()
      ensures var (allowed, after) := Admit(archs, old(koji), o.pkg);
        && koji == after
        && (if allowed then (code, table) == AddPackage(vercmp, how, old(table), o)
            else code == 0 && table == old(table))
    {
      var (allowed, after) := Admit(archs, koji, o.pkg);
      koji := after;
      if !allowed {
        return 0;
      }
      var name := o.pkg.name;
      if name !in table {
        table := table[name := [Stored(o.pkg, FirstBase(o.base, o.path))]];
        return 1;
      }
      var list := table[name];
      var verdict := Verdict.Add;
      var i := 0;
      while i < |list| && verdict == Verdict.Add
        invariant i <= |list|
        invariant verdict.Replace? ==> verdict.i < |list|
        invariant Scan(vercmp, how, list, o.pkg, 0)
          == if verdict == Verdict.Add then Scan(vercmp, how, list, o.pkg, i) else verdict
      {
        if list[i].pkg.arch == o.pkg.arch {
          verdict := Judge(vercmp, how, o.pkg, list[i].pkg, i);
        }
        i := i + 1;
      }
      code := Code(verdict);
      table := table[name := Apply(list, verdict, Stored(o.pkg, OrPath(o.base, o.path)))];
    }

    /** `Add` as the next step of a merge. */
    method AddNext(vercmp: Vercmp, o: Offer, ghost koji0: Option<Stuff>, ghost offered: seq<Offer>, ghost count: int)
      returns (code: int, ghost total: int)
      requires MergedSoFar(vercmp, koji0, offered, count)
      modifies this
      ensures total == if code == 1 then count + 1 else count
      ensures MergedSoFar(vercmp, koji0, offered + [o], total)
    {
      MergingStep(vercmp, how, archs, koji0, offered, o);
      code := Add(vercmp, o);
      total := if code == 1 then count + 1 else count;
    }

    /** The loop over the packages of one repository; the result is the number added (code 1). */
    method MergeRepo(vercmp: Vercmp, offers: seq<Offer>, ghost koji0: Option<Stuff>, ghost offered: seq<Offer>,
                     ghost count: int)
      returns (added: nat)
      requires MergedSoFar(vercmp, koji0, offered, count)
      modifies this
      ensures MergedSoFar(vercmp, koji0, offered + offers, count + added)
    {
      added := 0;
      ghost var sofar, total := offered, count;
      for i := 0 to |offers|
        invariant sofar == UpTo(offered, offers, i) && total == count + added
        invariant MergedSoFar(vercmp, koji0, sofar, total)
      {
        var code: int;
        code, total := AddNext(vercmp, offers[i], koji0, sofar, total);
        UpToNext(offered, offers, i);
        sofar := sofar + [offers[i]];
        if code == 1 {
          added := added + 1;
        }
      }
      UpToAll(offered, offers);
    }

    /** merge_repos: every package of every repository, counting those that are added. */
    method MergeAllRepos(vercmp: Vercmp, repos: seq<RepoEntry>, omitBaseurl: bool) returns (loaded: int)
      requires table == map[]
      modifies this
      ensures loaded == -1 <==> ReadCount(repos) < |repos| && repos[ReadCount(repos)].Unloadable?
      ensures var merged := Merging(vercmp, how, archs, old(koji), AllOffers(repos, ReadCount(repos), omitBaseurl, old(koji).Some?));
        && table == merged.0
        && koji == merged.1
        && (loaded != -1 ==> loaded == merged.2)
      ensures AllMerged(archs, old(koji), AllOffers(repos, ReadCount(repos), omitBaseurl, old(koji).Some?), table)
    {
      var repoId: nat;
      AdmittedAreMerged(vercmp, how, archs, koji, AllOffers(repos, ReadCount(repos), omitBaseurl, koji.Some?));
      loaded, repoId := MergeReadable(vercmp, repos, omitBaseurl);
      ReadCountIs(repos, repoId);
      if repoId < |repos| && repos[repoId].Unloadable? {
        loaded := -1;
      }
    }

    /** The loop over the repositories, up to the first that is unusable. */
    method MergeReadable(vercmp: Vercmp, repos: seq<RepoEntry>, omitBaseurl: bool) returns (loaded: int, repoId: nat)
      requires table == map[]
      modifies this
      ensures repoId <= |repos| && AreReadable(repos, repoId) && (repoId < |repos| ==> !repos[repoId].Repository?)
      ensures MergedSoFar(vercmp, old(koji), AllOffers(repos, repoId, omitBaseurl, old(koji).Some?), loaded)
    {
      loaded, repoId := 0, 0;
      ghost var koji0 := koji;
      var useKoji := koji.Some?;
      MergingNothing(vercmp, how, archs, koji);
      while repoId < |repos| && repos[repoId].Repository?
        invariant repoId <= |repos| && AreReadable(repos, repoId)
        invariant MergedSoFar(vercmp, koji0, AllOffers(repos, repoId, omitBaseurl, useKoji), loaded)
      {
        var added := MergeNext(vercmp, repos, repoId, omitBaseurl, useKoji, koji0, loaded);
        loaded := loaded + added;
        repoId := repoId + 1;
      }
    }

    /** The next repository, as a step of the merge. */
    method MergeNext(vercmp: Vercmp, repos: seq<RepoEntry>, repoId: nat, omitBaseurl: bool, useKoji: bool,
                     ghost koji0: Option<Stuff>, ghost count: int)
      returns (added: nat)
      requires repoId < |repos| && AreReadable(repos, repoId + 1)
      requires MergedSoFar(vercmp, koji0, AllOffers(repos, repoId, omitBaseurl, useKoji), count)
      modifies this
      ensures MergedSoFar(vercmp, koji0, AllOffers(repos, repoId + 1, omitBaseurl, useKoji), count + added)
    {
      ghost var offered := AllOffers(repos, repoId, omitBaseurl, useKoji);
      added := MergeRepo(vercmp, OffersOf(repos[repoId], omitBaseurl, useKoji, repoId), koji0, offered, count);
    }

    ghost predicate MergedSoFar(vercmp: Vercmp, koji0: Option<Stuff>, offered: seq<Offer>, count: int)
      reads this
    {
      (table, koji, count) == Merging(vercmp, how, archs, koji0, offered)
    }
  }
}
