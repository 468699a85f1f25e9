/** Selection of source rpms for Koji merges (src/koji.c). */
module Koji {
  import opened Basics
  import opened Versions
  import opened Nevra
  import opened Packages

  /** A hash table entry: the repository and the source rpm chosen for an srpm name. */
  datatype SrpmVal = SrpmVal(repoId: nat, sourceRpm: string)

  /** `include_srpms` and `seen_rpms` are NULL when only pkgorigins is set up; `blocked_srpms` is NULL when no
      list is given. */
  datatype Stuff = Stuff(
    blocked: Option<set<string>>,
    includeSrpms: Option<map<string, SrpmVal>>,
    seenRpms: Option<set<string>>,
    simple: bool)

  /** The packages of a loaded repository, as the table iteration yields them: their rpm_sourcerpm. */
  type Repo = seq<Option<string>>

  predicate Valid(srpm: string) {
    SplitRpmFilename(srpm).Some?
  }

  function NameOf(srpm: string): string
    requires Valid(srpm)
  {
    SplitRpmFilename(srpm).value.name
  }

  function EvrOf(srpm: string): Evr
    requires Valid(srpm)
  {
    var n := SplitRpmFilename(srpm).value;
    Evr(n.epoch, n.version, n.release)
  }

  /** The repository lists a valid source rpm of that name. */
  predicate Offers(repo: Repo, name: string, srpm: string) {
    Some(srpm) in repo && Valid(srpm) && NameOf(srpm) == name
  }

  /** What the table must say about one name after the repositories `repos`: it has an entry iff some
      repository offers a source rpm of that name, and the entry is from the first such repository and
      not older than anything of that name there. */
  ghost predicate Chosen(vercmp: Vercmp, repos: seq<Repo>, name: string, entry: Option<SrpmVal>) {
    match entry
    case None => forall r, srpm :: 0 <= r < |repos| ==> !Offers(repos[r], name, srpm)
    case Some(v) =>
      && v.repoId < |repos|
      && Offers(repos[v.repoId], name, v.sourceRpm)
      && (forall r, srpm :: 0 <= r < v.repoId ==> !Offers(repos[r], name, srpm))
      && (forall srpm :: Offers(repos[v.repoId], name, srpm) ==>
           CmpEvr(vercmp, EvrOf(srpm), EvrOf(v.sourceRpm)) <= 0)
  }

  function Lookup<V>(m: map<string, V>, k: string): Option<V> {
    if k in m then Some(m[k]) else None
  }

  ghost predicate AllChosen(vercmp: Vercmp, repos: seq<Repo>, table: map<string, SrpmVal>) {
    forall name :: HasChosen(vercmp, repos, table, name)
  }

  /** The entry of a name, or its absence, is right. */
  ghost predicate HasChosen(vercmp: Vercmp, repos: seq<Repo>, table: map<string, SrpmVal>, name: string) {
    Chosen(vercmp, repos, name, Lookup(table, name))
  }

  /** One more package of the last repository. */
  function Include(vercmp: Vercmp, table: map<string, SrpmVal>, repoId: nat, srpm: Option<string>): map<string, SrpmVal>
    requires forall name :: name in table ==> Valid(table[name].sourceRpm)
  {
    if srpm.None? || !Valid(srpm.value) then table
    else
      var name := NameOf(srpm.value);
      if name in table
         && (table[name].repoId != repoId
             || CmpEvr(vercmp, EvrOf(srpm.value), EvrOf(table[name].sourceRpm)) < 1)
      then table
      else table[name := SrpmVal(repoId, srpm.value)]
  }

  lemma IncludeKeepsChosen(vercmp: Vercmp, done: seq<Repo>, part: Repo, table: map<string, SrpmVal>, srpm: Option<string>)
    requires Lawful(vercmp) && AllChosen(vercmp, done + [part], table)
    requires forall name :: name in table ==> Valid(table[name].sourceRpm)
    ensures AllChosen(vercmp, done + [part + [srpm]], Include(vercmp, table, |done|, srpm))
  {
    var table' := Include(vercmp, table, |done|, srpm);
    forall name
      ensures HasChosen(vercmp, done + [part + [srpm]], table', name)
    {
      assert HasChosen(vercmp, done + [part], table, name);
      if srpm.Some? && Valid(srpm.value) && NameOf(srpm.value) == name {
        OffersAfter(done, part, srpm, name);
        NewestAfter(vercmp, done + [part], done + [part + [srpm]], |done|, name, Lookup(table, name), srpm.value);
      } else {
        assert Lookup(table', name) == Lookup(table, name);
        OtherNameKeepsChosen(vercmp, done, part, srpm, name, Lookup(table, name));
      }
    }
  }

  lemma OffersAfter(done: seq<Repo>, part: Repo, srpm: Option<string>, name: string)
    ensures forall r, s :: 0 <= r < |done| ==>
      (Offers((done + [part + [srpm]])[r], name, s) <==> Offers((done + [part])[r], name, s))
    ensures forall s :: Offers((done + [part + [srpm]])[|done|], name, s) <==>
      Offers((done + [part])[|done|], name, s) || (srpm == Some(s) && Valid(s) && NameOf(s) == name)
  {
  }

  lemma OtherNameKeepsChosen(vercmp: Vercmp, done: seq<Repo>, part: Repo, srpm: Option<string>, name: string,
                             entry: Option<SrpmVal>)
    requires Chosen(vercmp, done + [part], name, entry)
    requires !(srpm.Some? && Valid(srpm.value) && NameOf(srpm.value) == name)
    ensures Chosen(vercmp, done + [part + [srpm]], name, entry)
  {
    OffersAfter(done, part, srpm, name);
    var before, after := done + [part], done + [part + [srpm]];
    assert forall r, s :: 0 <= r < |before| ==> (Offers(after[r], name, s) <==> Offers(before[r], name, s));
  }

  /** The entry of the added package's own name. */
  lemma NewestAfter(vercmp: Vercmp, before: seq<Repo>, after: seq<Repo>, last: nat, name: string,
                    entry: Option<SrpmVal>, srpm: string)
    requires Lawful(vercmp) && |before| == |after| == last + 1 && Chosen(vercmp, before, name, entry)
    requires forall r, s :: 0 <= r < last ==> (Offers(after[r], name, s) <==> Offers(before[r], name, s))
    requires Valid(srpm) && NameOf(srpm) == name
    requires forall s :: Offers(after[last], name, s) <==> Offers(before[last], name, s) || s == srpm
    ensures Chosen(vercmp, after, name,
        if entry.Some? && (entry.value.repoId != last
                           || CmpEvr(vercmp, EvrOf(srpm), EvrOf(entry.value.sourceRpm)) < 1)
        then entry else Some(SrpmVal(last, srpm)))
  {
    CmpEvrIsTotalPreorder(vercmp, EvrOf(srpm), EvrOf(srpm), EvrOf(srpm));
    if entry.Some? && entry.value.repoId == last {
      forall s | Offers(before[last], name, s)
        ensures CmpEvr(vercmp, EvrOf(srpm), EvrOf(entry.value.sourceRpm)) >= 1 ==>
          CmpEvr(vercmp, EvrOf(s), EvrOf(srpm)) <= 0
      {
        CmpEvrIsTotalPreorder(vercmp, EvrOf(s), EvrOf(entry.value.sourceRpm), EvrOf(srpm));
        CmpEvrIsTotalPreorder(vercmp, EvrOf(entry.value.sourceRpm), EvrOf(srpm), EvrOf(srpm));
      }
    }
  }

  lemma ChosenNextRepo(vercmp: Vercmp, done: seq<Repo>, table: map<string, SrpmVal>)
    requires AllChosen(vercmp, done, table)
    ensures AllChosen(vercmp, done + [[]], table)
  {
    forall name
      ensures HasChosen(vercmp, done + [[]], table, name)
    {
      assert HasChosen(vercmp, done, table, name);
    }
  }

  /** The repositories that are read: all before the first one that cannot be loaded. */
  function Readable(repos: seq<Option<Repo>>): (read: seq<Repo>)
    ensures |read| <= |repos| && (|read| < |repos| ==> repos[|read|].None?)
    ensures forall i :: 0 <= i < |read| ==> repos[i] == Some(read[i])
  {
    if repos == [] || repos[0].None? then [] else [repos[0].value] + Readable(repos[1..])
  }

  /** The choice does not depend on the order in which each repository is iterated, up to equal versions. */
  lemma ChoiceIgnoresOrder(vercmp: Vercmp, repos: seq<Repo>, repos': seq<Repo>, name: string,
                           entry: Option<SrpmVal>, entry': Option<SrpmVal>)
    requires Lawful(vercmp) && |repos| == |repos'|
    requires forall r :: 0 <= r < |repos| ==> multiset(repos[r]) == multiset(repos'[r])
    requires Chosen(vercmp, repos, name, entry) && Chosen(vercmp, repos', name, entry')
    ensures entry.Some? <==> entry'.Some?
    ensures entry.Some? ==>
      && entry.value.repoId == entry'.value.repoId
      && CmpEvr(vercmp, EvrOf(entry.value.sourceRpm), EvrOf(entry'.value.sourceRpm)) == 0
  {
    forall r, s | 0 <= r < |repos|
      ensures Offers(repos[r], name, s) <==> Offers(repos'[r], name, s)
    {
      assert Some(s) in repos[r] <==> Some(s) in multiset(repos[r]);
      assert Some(s) in repos'[r] <==> Some(s) in multiset(repos'[r]);
    }
    assert entry.Some? ==> Offers(repos'[entry.value.repoId], name, entry.value.sourceRpm);
    assert entry'.Some? ==> Offers(repos[entry'.value.repoId], name, entry'.value.sourceRpm);
    if entry.Some? && entry'.Some? {
      var a, b := entry.value, entry'.value;
      assert Offers(repos[a.repoId], name, a.sourceRpm) && Offers(repos'[b.repoId], name, b.sourceRpm);
      assert Offers(repos'[a.repoId], name, a.sourceRpm) && Offers(repos[b.repoId], name, b.sourceRpm);
      CmpEvrIsTotalPreorder(vercmp, EvrOf(a.sourceRpm), EvrOf(b.sourceRpm), EvrOf(a.sourceRpm));
    }
  }

  // ---------------------------------------------------------------- which packages are allowed

  /** The tests on a package's own source rpm. */
  predicate SrpmAllowed(stuff: Stuff, p: Package) {
    p.sourceRpm.Some? ==>
      && Valid(p.sourceRpm.value)
      && (stuff.blocked.Some? ==> NameOf(p.sourceRpm.value) !in stuff.blocked.value)
      && (!stuff.simple && stuff.includeSrpms.Some? ==>
           var name := NameOf(p.sourceRpm.value);
           name in stuff.includeSrpms.value && stuff.includeSrpms.value[name].sourceRpm == p.sourceRpm.value)
  }

  predicate Tracks(stuff: Stuff) {
    !stuff.simple && stuff.seenRpms.Some?
  }

  function AllowedStep(stuff: Stuff, p: Package): (bool, Stuff) {
    if !SrpmAllowed(stuff, p) || (Tracks(stuff) && Nvra(p) in stuff.seenRpms.value) then (false, stuff)
    else if Tracks(stuff) then (true, stuff.(seenRpms := Some(stuff.seenRpms.value + {Nvra(p)})))
    else (true, stuff)
  }

  /** `koji_allowed` over a sequence of packages: the accepted ones and the state after them. */
  function Accept(stuff: Stuff, ps: seq<Package>): (seq<Package>, Stuff)
    decreases |ps|
  {
    if ps == [] then ([], stuff)
    else
      var n := |ps| - 1;
      var (accepted, mid) := Accept(stuff, ps[..n]);
      var (allowed, after) := AllowedStep(mid, ps[n]);
      (if allowed then accepted + [ps[n]] else accepted, after)
  }

  function Nvras(ps: seq<Package>): set<string> {
    set p | p in ps :: Nvra(p)
  }

  /** The state after accepting `accepted` from the fresh state `stuff`. */
  ghost predicate StateAfter(stuff: Stuff, accepted: seq<Package>, after: Stuff) {
    && after == stuff.(seenRpms := after.seenRpms)
    && (after.seenRpms.Some? <==> stuff.seenRpms.Some?)
    && (Tracks(stuff) ==> after.seenRpms.value == Nvras(accepted))
  }

  predicate DistinctNvras(ps: seq<Package>) {
    forall i, j :: 0 <= i < j < |ps| ==> Nvra(ps[i]) != Nvra(ps[j])
  }

  lemma AcceptOne(stuff: Stuff, accepted: seq<Package>, mid: Stuff, p: Package)
    requires StateAfter(stuff, accepted, mid)
    requires (forall q :: q in accepted ==> SrpmAllowed(stuff, q)) && (Tracks(stuff) ==> DistinctNvras(accepted))
    ensures var (allowed, after) := AllowedStep(mid, p);
      && allowed == (SrpmAllowed(stuff, p) && (Tracks(stuff) ==> Nvra(p) !in Nvras(accepted)))
      && StateAfter(stuff, if allowed then accepted + [p] else accepted, after)
      && (allowed && Tracks(stuff) ==> DistinctNvras(accepted + [p]))
  {
    assert SrpmAllowed(mid, p) == SrpmAllowed(stuff, p);
    NvrasAppend(accepted, p);
    if Nvra(p) !in Nvras(accepted) {
      forall i | 0 <= i < |accepted|
        ensures Nvra(accepted[i]) != Nvra(p)
      {
        assert accepted[i] in accepted;
      }
    }
  }

  /** `accepted` is `ps` without what has a source rpm that is not allowed, or the NVRA of an accepted one. */
  ghost predicate RightlyAccepted(stuff: Stuff, ps: seq<Package>, accepted: seq<Package>) {
    && (forall p :: p in accepted ==> p in ps && SrpmAllowed(stuff, p))
    && (Tracks(stuff) ==> DistinctNvras(accepted))
    && (forall p :: p in ps && SrpmAllowed(stuff, p) ==>
         p in accepted || (Tracks(stuff) && Nvra(p) in Nvras(accepted)))
  }

  lemma RightlyAcceptedStep(stuff: Stuff, ps: seq<Package>, accepted: seq<Package>, p: Package, allowed: bool)
    requires RightlyAccepted(stuff, ps, accepted)
    requires allowed == (SrpmAllowed(stuff, p) && (Tracks(stuff) ==> Nvra(p) !in Nvras(accepted)))
    requires allowed && Tracks(stuff) ==> DistinctNvras(accepted + [p])
    ensures RightlyAccepted(stuff, ps + [p], if allowed then accepted + [p] else accepted)
  {
    if allowed {
      NvrasAppend(accepted, p);
      forall q | q in ps + [p] && SrpmAllowed(stuff, q)
        ensures q in accepted + [p] || (Tracks(stuff) && Nvra(q) in Nvras(accepted + [p]))
      {
        assert q == p || q in ps;
      }
    } else {
      forall q | q in ps + [p] && SrpmAllowed(stuff, q)
        ensures q in accepted || (Tracks(stuff) && Nvra(q) in Nvras(accepted))
      {
        assert q == p || q in ps;
      }
    }
  }

  lemma NvrasAppend(ps: seq<Package>, p: Package)
    ensures Nvras(ps + [p]) == Nvras(ps) + {Nvra(p)}
  {
  }

  /** Every accepted package has a source rpm that parses, is not blocked and (in non-simple mode) is the
      chosen one; and no two accepted packages share an NVRA. A package is left out only for its source rpm
      or because an accepted one has its NVRA. */
  lemma {:induction false} AcceptedAreAllowed(stuff: Stuff, ps: seq<Package>)
    requires stuff.seenRpms.Some? ==> stuff.seenRpms.value == {}
    ensures var (accepted, after) := Accept(stuff, ps);
      StateAfter(stuff, accepted, after) && RightlyAccepted(stuff, ps, accepted)
  {
    if ps == [] {
      assert Nvras([]) == {};
    } else {
      var n := |ps| - 1;
      AcceptedAreAllowed(stuff, ps[..n]);
      var (before, mid) := Accept(stuff, ps[..n]);
      AcceptOne(stuff, before, mid, ps[n]);
      RightlyAcceptedStep(stuff, ps[..n], before, ps[n], AllowedStep(mid, ps[n]).0);
      assert ps == ps[..n] + [ps[n]];
    }
  }

  /** No source rpm; or one that is a file name of an rpm, of a name that is not blocked and, unless in simple
      mode, for which the table holds this very file name. */
  ghost predicate MayPass(blocked: Option<set<string>>, table: Option<map<string, SrpmVal>>, simple: bool,
                          srpm: Option<string>)
  {
    srpm.Some? ==>
      var parsed := SplitRpmFilename(srpm.value);
      && parsed.Some?
      && (blocked.None? || parsed.value.name !in blocked.value)
      && (simple || table.None? || exists r :: Lookup(table.value, parsed.value.name) == Some(SrpmVal(r, srpm.value)))
  }

  lemma AllowedIsMayPass(stuff: Stuff, p: Package)
    ensures SrpmAllowed(stuff, p) <==> MayPass(stuff.blocked, stuff.includeSrpms, stuff.simple, p.sourceRpm)
  {
    if p.sourceRpm.Some? && Valid(p.sourceRpm.value) && stuff.includeSrpms.Some? {
      var table, name := stuff.includeSrpms.value, NameOf(p.sourceRpm.value);
      if name in table && table[name].sourceRpm == p.sourceRpm.value {
        assert Lookup(table, name) == Some(SrpmVal(table[name].repoId, p.sourceRpm.value));
      }
    }
  }

  /** The name and version of a usual source rpm. */
  lemma SrpmFields(n: string, v: string, r: string, a: string)
    requires ':' !in n && ':' !in v && ':' !in r && ':' !in a
    requires '/' !in n && '/' !in v && '/' !in r && '/' !in a
    requires '-' !in v && '-' !in r && '.' !in a && '-' !in a
    ensures var srpm := n + "-" + v + "-" + r + "." + a + ".rpm";
      Valid(srpm) && NameOf(srpm) == n && EvrOf(srpm) == Evr(None, Some(v), Some(r))
  {
    FilenameParses("", n, v, r, a);
  }

  /** And of one with an epoch behind it. */
  lemma SrpmFieldsWithEpoch(n: string, v: string, r: string, a: string, e: string)
    requires ':' !in n && ':' !in v && ':' !in r && ':' !in a
    requires '/' !in n && '/' !in v && '/' !in r && '/' !in a && '/' !in e
    requires '-' !in v && '-' !in r && '.' !in a && '-' !in a
    ensures var srpm := n + "-" + v + "-" + r + "." + a + ".rpm" + ":" + e;
      Valid(srpm) && NameOf(srpm) == n && EvrOf(srpm) == Evr(Some(e), Some(v), Some(r))
  {
    FilenameWithEpochParses("", n, v, r, a, e);
  }

  /** The NVRA under which a package is remembered parses back to its fields. */
  lemma NvraParses(p: Package)
    requires p.evr.version.Some? && p.evr.release.Some? && p.arch.Some?
    requires ':' !in p.name && ':' !in p.evr.version.value && ':' !in p.evr.release.value && ':' !in p.arch.value
    requires '-' !in p.evr.version.value && '-' !in p.evr.release.value
    requires '.' !in p.arch.value && '-' !in p.arch.value
    ensures StrToNevra(Nvra(p)) == Some(Nevra(p.name, None, p.evr.version, p.evr.release, p.arch))
  {
    ParseNvra(p.name, p.evr.version.value, p.evr.release.value, p.arch.value);
  }

  /** Position `k` is accepted: its source rpm is allowed and, in non-simple mode, no package before it with an
      allowed source rpm has its NVRA. */
  ghost predicate Picks(stuff: Stuff, ps: seq<Package>, k: nat)
    requires k < |ps|
  {
    && MayPass(stuff.blocked, stuff.includeSrpms, stuff.simple, ps[k].sourceRpm)
    && (!stuff.simple && stuff.seenRpms.Some? ==> forall j :: 0 <= j < k && Nvra(ps[j]) == Nvra(ps[k]) ==>
         !MayPass(stuff.blocked, stuff.includeSrpms, stuff.simple, ps[j].sourceRpm))
  }

  ghost function Picked(stuff: Stuff, ps: seq<Package>): seq<Package> {
    if ps == [] then []
    else
      var n := |ps| - 1;
      Picked(stuff, ps[..n]) + if Picks(stuff, ps, n) then [ps[n]] else []
  }

  lemma TurnIsPick(stuff: Stuff, ps: seq<Package>, accepted: seq<Package>)
    requires ps != [] && RightlyAccepted(stuff, ps[..|ps| - 1], accepted)
    ensures var p := ps[|ps| - 1];
      (SrpmAllowed(stuff, p) && (Tracks(stuff) ==> Nvra(p) !in Nvras(accepted))) <==> Picks(stuff, ps, |ps| - 1)
  {
    forall j | 0 <= j < |ps|
      ensures SrpmAllowed(stuff, ps[j]) <==> MayPass(stuff.blocked, stuff.includeSrpms, stuff.simple, ps[j].sourceRpm)
    {
      AllowedIsMayPass(stuff, ps[j]);
    }
    if Tracks(stuff) {
      SeenBefore(stuff, ps, accepted);
    }
  }

  /** An NVRA is among the accepted ones iff a package with an allowed source rpm has it. */
  lemma SeenBefore(stuff: Stuff, ps: seq<Package>, accepted: seq<Package>)
    requires Tracks(stuff) && ps != [] && RightlyAccepted(stuff, ps[..|ps| - 1], accepted)
    ensures Nvra(ps[|ps| - 1]) in Nvras(accepted)
      <==> exists j :: 0 <= j < |ps| - 1 && SrpmAllowed(stuff, ps[j]) && Nvra(ps[j]) == Nvra(ps[|ps| - 1])
  {
    var n := |ps| - 1;
    if j :| 0 <= j < n && SrpmAllowed(stuff, ps[j]) && Nvra(ps[j]) == Nvra(ps[n]) {
      assert ps[..n][j] in ps[..n];
    }
    if Nvra(ps[n]) in Nvras(accepted) {
      var q :| q in accepted && Nvra(q) == Nvra(ps[n]);
      assert q in ps[..n];
      var j :| 0 <= j < n && ps[..n][j] == q;
      assert ps[j] == q;
    }
  }

  /** Exactly the picked positions are accepted, each occurrence, in the order they come. */
  lemma {:induction false} AcceptedArePicked(stuff: Stuff, ps: seq<Package>)
    requires stuff.seenRpms.Some? ==> stuff.seenRpms.value == {}
    ensures Accept(stuff, ps).0 == Picked(stuff, ps)
  {
    if ps != [] {
      var n := |ps| - 1;
      AcceptedArePicked(stuff, ps[..n]);
      AcceptedAreAllowed(stuff, ps[..n]);
      var (before, mid) := Accept(stuff, ps[..n]);
      AcceptOne(stuff, before, mid, ps[n]);
      TurnIsPick(stuff, ps, before);
    }
  }

  // ---------------------------------------------------------------- the structure in place

  class KojiMergedReposStuff {
    var blocked: Option<set<string>>
    var includeSrpms: map<string, SrpmVal>
    var seenRpms: set<string>
    const simple: bool

    function View(): Stuff
      reads this
    {
      Stuff(blocked, Some(includeSrpms), Some(seenRpms), simple)
    }

    /** koji_stuff_prepare: the loop over the repositories. */
    constructor Prepare(vercmp: Vercmp, blocked: Option<set<string>>, simple: bool, repos: seq<Option<Repo>>)
      requires Lawful(vercmp)
      ensures this.blocked == blocked && this.simple == simple && seenRpms == {}
      ensures AllChosen(vercmp, Readable(repos), includeSrpms)
    {
      this.blocked, this.simple, seenRpms := blocked, simple, {};
      includeSrpms := map[];
      new;
      ReadRepos(vercmp, repos);
    }

    /** The loop over the repositories, up to the first that cannot be loaded. */
    method ReadRepos(vercmp: Vercmp, repos: seq<Option<Repo>>)
      requires Lawful(vercmp) && includeSrpms == map[]
      modifies this`includeSrpms
      ensures AllChosen(vercmp, Readable(repos), includeSrpms)
    {
      var repoId := 0;
      ghost var done: seq<Repo> := [];
      NothingChosen(vercmp);
      assert repos[0..] == repos;
      while repoId < |repos| && repos[repoId].Some?
        invariant repoId <= |repos| && |done| == repoId
        invariant Readable(repos) == done + Readable(repos[repoId..])
        invariant AllChosen(vercmp, done, includeSrpms)
      {
        ReadRepo(vercmp, repoId, repos[repoId].value, done);
        ReadableStep(repos, repoId, done);
        done := done + [repos[repoId].value];
        repoId := repoId + 1;
      }
      assert Readable(repos[repoId..]) == [] && done + [] == done;
    }

    /** The loop over the packages of one repository. */
    method ReadRepo(vercmp: Vercmp, repoId: nat, repo: Repo, ghost done: seq<Repo>)
      requires Lawful(vercmp) && |done| == repoId && AllChosen(vercmp, done, includeSrpms)
      modifies this`includeSrpms
      ensures AllChosen(vercmp, done + [repo], includeSrpms)
    {
      ChosenNextRepo(vercmp, done, includeSrpms);
      StartOfRepo(done, repo);
      var i := 0;
      while i < |repo|
        invariant i <= |repo|
        invariant AllChosen(vercmp, Reading(done, repo, i), includeSrpms)
      {
        ReadPackage(vercmp, repoId, repo, i, done);
        i := i + 1;
      }
      EndOfRepo(done, repo);
    }

    /** One package of the repository, as a step of reading it. */
    method ReadPackage(vercmp: Vercmp, repoId: nat, repo: Repo, i: nat, ghost done: seq<Repo>)
      requires Lawful(vercmp) && |done| == repoId && i < |repo|
      requires AllChosen(vercmp, Reading(done, repo, i), includeSrpms)
      modifies this`includeSrpms
      ensures AllChosen(vercmp, Reading(done, repo, i + 1), includeSrpms)
    {
      ReadStep(vercmp, done, repo, i, includeSrpms);
      IncludePackage(vercmp, repoId, repo[i]);
    }

    method IncludePackage(vercmp: Vercmp, repoId: nat, srpm: Option<string>)
      requires forall name :: name in includeSrpms ==> Valid(includeSrpms[name].sourceRpm)
      modifies this`includeSrpms
      ensures includeSrpms == Include(vercmp, old(includeSrpms), repoId, srpm)
    {
      if srpm.None? {
        return;
      }
      if !Valid(srpm.value) {
        return;
      }
      var name := NameOf(srpm.value);
      if name in includeSrpms {
        var existing := includeSrpms[name];
        if existing.repoId != repoId {
          return;
        }
        if CmpEvr(vercmp, EvrOf(srpm.value), EvrOf(existing.sourceRpm)) < 1 {
          return;
        }
      }
      includeSrpms := includeSrpms[name := SrpmVal(repoId, srpm.value)];
    }

    /** koji_allowed */
    method Allowed(p: Package) returns (allowed: bool)
      modifies this`seenRpms
      ensures (allowed, View()) == AllowedStep(old(View()), p)
      ensures allowed <==>
        && (p.sourceRpm.Some? ==>
             var parsed := SplitRpmFilename(p.sourceRpm.value);
             && parsed.Some?
             && (blocked.None? || parsed.value.name !in blocked.value)
             && (simple || (&& parsed.value.name in includeSrpms
                            && includeSrpms[parsed.value.name].sourceRpm == p.sourceRpm.value)))
        && (simple || Nvra(p) !in old(seenRpms))
      ensures seenRpms == old(seenRpms) + if allowed && !simple then {Nvra(p)} else {}
    {
      if p.sourceRpm.Some? {
        if !Valid(p.sourceRpm.value) {
          return false;
        }
        var name := NameOf(p.sourceRpm.value);
        if blocked.Some? && name in blocked.value {
          return false;
        }
        if !simple && (name !in includeSrpms || includeSrpms[name].sourceRpm != p.sourceRpm.value) {
          return false;
        }
      }
      assert SrpmAllowed(View(), p);
      if !simple {
        var nvra := Nvra(p);
        if nvra in seenRpms {
          return false;
        }
        seenRpms := seenRpms + {nvra};
      }
      return true;
    }
  }

  /** The repositories that are through, and the first `i` packages of the next. */
  function Reading(done: seq<Repo>, repo: Repo, i: nat): seq<Repo> {
    if i <= |repo| then done + [repo[..i]] else done
  }

  lemma StartOfRepo(done: seq<Repo>, repo: Repo)
    ensures Reading(done, repo, 0) == done + [[]]
  {
  }

  lemma EndOfRepo(done: seq<Repo>, repo: Repo)
    ensures Reading(done, repo, |repo|) == done + [repo]
  {
    assert repo[..|repo|] == repo;
  }

  lemma NothingChosen(vercmp: Vercmp)
    ensures AllChosen(vercmp, [], map[])
  {
  }

  lemma ReadableStep(repos: seq<Option<Repo>>, i: nat, done: seq<Repo>)
    requires i < |repos| && repos[i].Some?
    ensures done + Readable(repos[i..]) == done + [repos[i].value] + Readable(repos[i + 1..])
  {
    assert repos[i..][1..] == repos[i + 1..];
  }

  lemma ReadStep(vercmp: Vercmp, done: seq<Repo>, repo: Repo, i: nat, table: map<string, SrpmVal>)
    requires Lawful(vercmp) && i < |repo| && AllChosen(vercmp, done + [repo[..i]], table)
    ensures forall name :: name in table ==> Valid(table[name].sourceRpm)
    ensures AllChosen(vercmp, done + [repo[..i + 1]], Include(vercmp, table, |done|, repo[i]))
  {
    EntriesAreValid(vercmp, done + [repo[..i]], table);
    IncludeKeepsChosen(vercmp, done, repo[..i], table, repo[i]);
    assert repo[..i + 1] == repo[..i] + [repo[i]];
  }

  lemma EntriesAreValid(vercmp: Vercmp, repos: seq<Repo>, table: map<string, SrpmVal>)
    requires AllChosen(vercmp, repos, table)
    ensures forall name :: name in table ==> Valid(table[name].sourceRpm)
  {
    forall name | name in table
      ensures Valid(table[name].sourceRpm)
    {
      assert HasChosen(vercmp, repos, table, name);
    }
  }
}
