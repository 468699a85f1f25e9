/** What the five merge policies keep, and what `merge_repos` counts. */
module MergeResults {
  import opened Basics
  import opened Sorting
  import opened Versions
  import opened Packages
  import opened Merge

  // ---------------------------------------------------------------- versions as the merge compares them

  /** The merge compares missing parts as empty strings. */
  function Flat(p: Package): Evr {
    Evr(Some(OrEmpty(p.evr.epoch)), Some(OrEmpty(p.evr.version)), Some(OrEmpty(p.evr.release)))
  }

  /** A missing epoch, version or release is compared as the empty string. */
  lemma MissingIsEmpty(p: Package)
    ensures Flat(p).epoch == if p.evr.epoch.None? then Some("") else p.evr.epoch
    ensures Flat(p).version == if p.evr.version.None? then Some("") else p.evr.version
    ensures Flat(p).release == if p.evr.release.None? then Some("") else p.evr.release
  {
  }

  lemma MergeOrder(vercmp: Vercmp, a: Package, b: Package)
    requires Lawful(vercmp)
    ensures Newer(vercmp, a, b) <==> CmpEvr(vercmp, Flat(a), Flat(b)) == 1
    ensures SameVersion(vercmp, a, b) <==> CmpEvr(vercmp, Flat(a), Flat(b)) == 0
  {
    CompareValuesLaws(vercmp, Flat(a).epoch, Flat(b).epoch, Flat(a).epoch);
    CompareValuesLaws(vercmp, Flat(a).version, Flat(b).version, Flat(a).version);
    CompareValuesLaws(vercmp, Flat(a).release, Flat(b).release, Flat(a).release);
  }

  // ---------------------------------------------------------------- the policies

  lemma {:induction false} FirstNaKeepsFirst(vercmp: Vercmp, ps: seq<Package>)
    requires ps != []
    ensures KeepAll(vercmp, FirstNa, ps) == [ps[0]]
  {
    if |ps| > 1 {
      FirstNaKeepsFirst(vercmp, ps[..|ps| - 1]);
    }
  }

  /** Position `k` holds the greatest time_file, and the earliest offered one. */
  ghost predicate EarliestNewest(ps: seq<Package>, k: int) {
    && 0 <= k < |ps|
    && (forall j :: 0 <= j < |ps| ==> ps[j].timeFile <= ps[k].timeFile)
    && (forall j :: 0 <= j < k ==> ps[j].timeFile < ps[k].timeFile)
  }

  lemma {:induction false} NewestNaKeepsEarliestNewest(vercmp: Vercmp, ps: seq<Package>)
    requires ps != []
    ensures exists k :: EarliestNewest(ps, k) && KeepAll(vercmp, NewestNa, ps) == [ps[k]]
  {
    var n := |ps| - 1;
    if n == 0 {
      assert EarliestNewest(ps, 0);
      assert KeepAll(vercmp, NewestNa, ps) == [ps[0]];
    } else {
      NewestNaKeepsEarliestNewest(vercmp, ps[..n]);
      var k :| EarliestNewest(ps[..n], k) && KeepAll(vercmp, NewestNa, ps[..n]) == [ps[..n][k]];
      NewestStep(ps, k);
    }
  }

  lemma NewestStep(ps: seq<Package>, k: int)
    requires |ps| > 1 && EarliestNewest(ps[..|ps| - 1], k)
    ensures EarliestNewest(ps, if ps[|ps| - 1].timeFile > ps[k].timeFile then |ps| - 1 else k)
  {
    assert forall j :: 0 <= j < |ps| - 1 ==> ps[..|ps| - 1][j] == ps[j];
  }

  /** Position `k` holds a greatest version, and the first offered of that version. */
  ghost predicate FirstHighest(vercmp: Vercmp, ps: seq<Package>, k: int) {
    && 0 <= k < |ps|
    && (forall j :: 0 <= j < |ps| ==> !Newer(vercmp, ps[j], ps[k]))
    && (forall j :: 0 <= j < k ==> Newer(vercmp, ps[k], ps[j]))
  }

  /** A package with maximal epoch, version and release; the first offered on ties. */
  lemma {:induction false} HighestNevraKeepsFirstHighest(vercmp: Vercmp, ps: seq<Package>)
    requires Lawful(vercmp) && ps != []
    ensures exists k :: FirstHighest(vercmp, ps, k) && KeepAll(vercmp, HighestNevra, ps) == [ps[k]]
  {
    var n := |ps| - 1;
    if n == 0 {
      MergeOrder(vercmp, ps[0], ps[0]);
      CmpEvrIsTotalPreorder(vercmp, Flat(ps[0]), Flat(ps[0]), Flat(ps[0]));
      assert FirstHighest(vercmp, ps, 0);
      assert KeepAll(vercmp, HighestNevra, ps) == [ps[0]];
    } else {
      HighestNevraKeepsFirstHighest(vercmp, ps[..n]);
      var k :| FirstHighest(vercmp, ps[..n], k) && KeepAll(vercmp, HighestNevra, ps[..n]) == [ps[..n][k]];
      HighestStep(vercmp, ps, k);
    }
  }

  lemma HighestStep(vercmp: Vercmp, ps: seq<Package>, k: int)
    requires Lawful(vercmp) && |ps| > 1
    requires FirstHighest(vercmp, ps[..|ps| - 1], k)
    ensures FirstHighest(vercmp, ps, if Newer(vercmp, ps[|ps| - 1], ps[k]) then |ps| - 1 else k)
  {
    var n := |ps| - 1;
    assert ps[..n][k] == ps[k];
    assert forall j :: 0 <= j < n ==> ps[..n][j] == ps[j];
    NewerTransitive(vercmp, ps[n], ps[k], ps[n]);
    if Newer(vercmp, ps[n], ps[k]) {
      NewHighest(vercmp, ps, k);
    } else {
      assert forall j :: 0 <= j < n ==> !Newer(vercmp, ps[..n][j], ps[k]);
      assert forall j :: 0 <= j < k ==> Newer(vercmp, ps[k], ps[..n][j]);
    }
  }

  lemma NewHighest(vercmp: Vercmp, ps: seq<Package>, k: int)
    requires Lawful(vercmp) && |ps| > 1
    requires FirstHighest(vercmp, ps[..|ps| - 1], k) && Newer(vercmp, ps[|ps| - 1], ps[k])
    ensures FirstHighest(vercmp, ps, |ps| - 1)
  {
    var n := |ps| - 1;
    NewerTransitive(vercmp, ps[n], ps[n], ps[n]);
    forall j | 0 <= j < n
      ensures Newer(vercmp, ps[n], ps[j]) && !Newer(vercmp, ps[j], ps[n])
    {
      assert ps[..n][j] == ps[j] && ps[..n][k] == ps[k];
      NewerTransitive(vercmp, ps[n], ps[k], ps[j]);
      NewerTransitive(vercmp, ps[n], ps[j], ps[j]);
    }
  }

  lemma NewerTransitive(vercmp: Vercmp, a: Package, b: Package, c: Package)
    requires Lawful(vercmp)
    ensures Newer(vercmp, a, b) && !Newer(vercmp, c, b) ==> Newer(vercmp, a, c)
    ensures Newer(vercmp, a, b) ==> !Newer(vercmp, b, a)
    ensures !Newer(vercmp, a, a)
  {
    MergeOrder(vercmp, a, b);
    MergeOrder(vercmp, b, a);
    MergeOrder(vercmp, c, b);
    MergeOrder(vercmp, a, c);
    MergeOrder(vercmp, a, a);
    CmpEvrIsTotalPreorder(vercmp, Flat(a), Flat(c), Flat(b));
    CmpEvrIsTotalPreorder(vercmp, Flat(a), Flat(b), Flat(c));
    CmpEvrIsTotalPreorder(vercmp, Flat(c), Flat(b), Flat(a));
  }

  /** In whatever order the packages of a name and architecture are offered, the same version is kept. */
  lemma HighestNevraIgnoresOrder(vercmp: Vercmp, ps: seq<Package>, qs: seq<Package>)
    requires Lawful(vercmp) && ps != [] && multiset(ps) == multiset(qs)
    ensures |KeepAll(vercmp, HighestNevra, ps)| == |KeepAll(vercmp, HighestNevra, qs)| == 1
    ensures SameVersion(vercmp, KeepAll(vercmp, HighestNevra, ps)[0], KeepAll(vercmp, HighestNevra, qs)[0])
  {
    SameMembers(ps, qs);
    HighestNevraKeepsFirstHighest(vercmp, ps);
    HighestNevraKeepsFirstHighest(vercmp, qs);
    var k :| FirstHighest(vercmp, ps, k) && KeepAll(vercmp, HighestNevra, ps) == [ps[k]];
    var l :| FirstHighest(vercmp, qs, l) && KeepAll(vercmp, HighestNevra, qs) == [qs[l]];
    assert ps[k] in qs && qs[l] in ps;
    MergeOrder(vercmp, ps[k], qs[l]);
    MergeOrder(vercmp, qs[l], ps[k]);
    CmpEvrIsTotalPreorder(vercmp, Flat(ps[k]), Flat(qs[l]), Flat(qs[l]));
  }

  lemma SameVersionTransitive(vercmp: Vercmp, a: Package, b: Package, c: Package)
    requires Lawful(vercmp)
    ensures SameVersion(vercmp, a, b) <==> SameVersion(vercmp, b, a)
    ensures SameVersion(vercmp, a, b) && SameVersion(vercmp, b, c) ==> SameVersion(vercmp, a, c)
    ensures SameVersion(vercmp, a, a)
  {
    MergeOrder(vercmp, a, b);
    MergeOrder(vercmp, b, a);
    MergeOrder(vercmp, b, c);
    MergeOrder(vercmp, a, c);
    MergeOrder(vercmp, a, a);
    CmpEvrIsTotalPreorder(vercmp, Flat(a), Flat(b), Flat(c));
  }

  predicate SameTriple(vercmp: Vercmp, a: Package, b: Package) {
    a.name == b.name && a.arch == b.arch && SameVersion(vercmp, a, b)
  }

  /** Equality of versions, or of name, architecture and version. */
  predicate Same(vercmp: Vercmp, triple: bool, a: Package, b: Package) {
    if triple then SameTriple(vercmp, a, b) else SameVersion(vercmp, a, b)
  }

  predicate SomeSame(vercmp: Vercmp, triple: bool, p: Package, qs: seq<Package>) {
    exists i :: 0 <= i < |qs| && Same(vercmp, triple, p, qs[i])
  }

  /** The first package of every class, in order. */
  function Firsts(vercmp: Vercmp, triple: bool, ps: seq<Package>): seq<Package> {
    if ps == [] then []
    else
      var before := Firsts(vercmp, triple, ps[..|ps| - 1]);
      if SomeSame(vercmp, triple, ps[|ps| - 1], before) then before else before + [ps[|ps| - 1]]
  }

  ghost predicate FirstOfClass(vercmp: Vercmp, triple: bool, ps: seq<Package>, p: Package, k: int) {
    0 <= k < |ps| && ps[k] == p && !SomeSame(vercmp, triple, p, ps[..k])
  }

  lemma SameIsEquivalence(vercmp: Vercmp, triple: bool, a: Package, b: Package, c: Package)
    requires Lawful(vercmp)
    ensures Same(vercmp, triple, a, a)
    ensures Same(vercmp, triple, a, b) ==> Same(vercmp, triple, b, a)
    ensures Same(vercmp, triple, a, b) && Same(vercmp, triple, b, c) ==> Same(vercmp, triple, a, c)
  {
    SameVersionTransitive(vercmp, a, b, c);
    SameVersionTransitive(vercmp, a, a, a);
  }

  /** A package has an equal among the firsts iff it has one among all. */
  lemma {:induction false} FirstsCover(vercmp: Vercmp, triple: bool, ps: seq<Package>, p: Package)
    requires Lawful(vercmp)
    ensures SomeSame(vercmp, triple, p, Firsts(vercmp, triple, ps)) <==> SomeSame(vercmp, triple, p, ps)
  {
    if ps != [] {
      var n := |ps| - 1;
      var before, last := Firsts(vercmp, triple, ps[..n]), ps[n];
      FirstsCover(vercmp, triple, ps[..n], p);
      SomeSameAppend(vercmp, triple, p, before, last);
      SomeSameAppend(vercmp, triple, p, ps[..n], last);
      assert ps == ps[..n] + [last];
      if SomeSame(vercmp, triple, last, before) && Same(vercmp, triple, p, last) {
        var i :| 0 <= i < |before| && Same(vercmp, triple, last, before[i]);
        SameIsEquivalence(vercmp, triple, p, last, before[i]);
      }
    }
  }

  lemma SomeSameAppend(vercmp: Vercmp, triple: bool, p: Package, qs: seq<Package>, q: Package)
    ensures SomeSame(vercmp, triple, p, qs + [q]) <==> SomeSame(vercmp, triple, p, qs) || Same(vercmp, triple, p, q)
  {
    if i :| 0 <= i < |qs| && Same(vercmp, triple, p, qs[i]) {
      assert (qs + [q])[i] == qs[i];
    }
    assert (qs + [q])[|qs|] == q;
  }

  ghost predicate Distinct(vercmp: Vercmp, triple: bool, ps: seq<Package>) {
    forall i, j :: 0 <= i < j < |ps| ==> !Same(vercmp, triple, ps[j], ps[i])
  }

  lemma DistinctAppend(vercmp: Vercmp, triple: bool, ps: seq<Package>, p: Package)
    requires Distinct(vercmp, triple, ps) && !SomeSame(vercmp, triple, p, ps)
    ensures Distinct(vercmp, triple, ps + [p])
  {
    forall i, j | 0 <= i < j < |ps| + 1
      ensures !Same(vercmp, triple, (ps + [p])[j], (ps + [p])[i])
    {
      assert (ps + [p])[i] == ps[i];
    }
  }

  lemma {:induction false} FirstsAreDistinct(vercmp: Vercmp, triple: bool, ps: seq<Package>)
    ensures Distinct(vercmp, triple, Firsts(vercmp, triple, ps))
  {
    if ps != [] {
      var before := Firsts(vercmp, triple, ps[..|ps| - 1]);
      FirstsAreDistinct(vercmp, triple, ps[..|ps| - 1]);
      if !SomeSame(vercmp, triple, ps[|ps| - 1], before) {
        DistinctAppend(vercmp, triple, before, ps[|ps| - 1]);
      }
    }
  }

  lemma {:induction false} FirstsAreFirst(vercmp: Vercmp, triple: bool, ps: seq<Package>, p: Package)
    requires Lawful(vercmp) && p in Firsts(vercmp, triple, ps)
    ensures exists k :: FirstOfClass(vercmp, triple, ps, p, k)
  {
    var n := |ps| - 1;
    if p in Firsts(vercmp, triple, ps[..n]) {
      FirstsAreFirst(vercmp, triple, ps[..n], p);
      var k :| FirstOfClass(vercmp, triple, ps[..n], p, k);
      assert ps[..n][..k] == ps[..k];
      assert FirstOfClass(vercmp, triple, ps, p, k);
    } else {
      FirstsCover(vercmp, triple, ps[..n], ps[n]);
      assert FirstOfClass(vercmp, triple, ps, ps[n], n);
    }
  }

  lemma FirstsAreComplete(vercmp: Vercmp, triple: bool, ps: seq<Package>, k: nat)
    requires Lawful(vercmp) && k < |ps|
    ensures SomeSame(vercmp, triple, ps[k], Firsts(vercmp, triple, ps))
  {
    SameIsEquivalence(vercmp, triple, ps[k], ps[k], ps[k]);
    assert Same(vercmp, triple, ps[k], ps[k]);
    assert SomeSame(vercmp, triple, ps[k], ps);
    FirstsCover(vercmp, triple, ps, ps[k]);
  }

  /** The firsts are pairwise different, each the first of its class, and no class is lost. */
  lemma FirstsAreDistinctAndComplete(vercmp: Vercmp, triple: bool, ps: seq<Package>)
    requires Lawful(vercmp)
    ensures var firsts := Firsts(vercmp, triple, ps);
      && Distinct(vercmp, triple, firsts)
      && (forall p :: p in firsts ==> exists k :: FirstOfClass(vercmp, triple, ps, p, k))
      && (forall k :: 0 <= k < |ps| ==> SomeSame(vercmp, triple, ps[k], firsts))
  {
    var firsts := Firsts(vercmp, triple, ps);
    FirstsAreDistinct(vercmp, triple, ps);
    forall p | p in firsts
      ensures exists k :: FirstOfClass(vercmp, triple, ps, p, k)
    {
      FirstsAreFirst(vercmp, triple, ps, p);
    }
    forall k | 0 <= k < |ps|
      ensures SomeSame(vercmp, triple, ps[k], firsts)
    {
      FirstsAreComplete(vercmp, triple, ps, k);
    }
  }

  /** First-NEVRA keeps the first offered package of every version. */
  lemma {:induction false} FirstNevraKeepsFirsts(vercmp: Vercmp, ps: seq<Package>)
    ensures KeepAll(vercmp, FirstNevra, ps) == Firsts(vercmp, false, ps)
  {
    if ps != [] {
      var n := |ps| - 1;
      FirstNevraKeepsFirsts(vercmp, ps[..n]);
      var before := Firsts(vercmp, false, ps[..n]);
      assert SomeSame(vercmp, false, ps[n], before) <==>
        exists i :: 0 <= i < |before| && SameVersion(vercmp, ps[n], before[i]);
    }
  }

  lemma {:induction false} AllNevraKeepsAll(vercmp: Vercmp, ps: seq<Package>)
    ensures KeepAll(vercmp, AllNevra, ps) == ps
  {
    if ps != [] {
      AllNevraKeepsAll(vercmp, ps[..|ps| - 1]);
    }
  }

  // ---------------------------------------------------------------- base URLs

  /** A package keeps its own base URL and without one gets the path of its repository; an empty URL may stay
      or be replaced, depending on whether the package was the first of its name. */
  predicate StoredFrom(x: Stored, o: Offer) {
    && x.pkg == o.pkg
    && (o.base.None? ==> x.base == o.path)
    && (o.base.Some? && o.base.value != "" ==> x.base == o.base)
    && (x.base == o.base || x.base == o.path)
  }

  ghost predicate AllStoredFrom(table: Table, offers: seq<Offer>) {
    forall name, x :: x in Listed(table, name) ==> x.pkg.name == name && FromSome(x, offers)
  }

  predicate FromSome(x: Stored, offers: seq<Offer>) {
    exists k :: 0 <= k < |offers| && StoredFrom(x, offers[k])
  }

  lemma FromMore(x: Stored, offers: seq<Offer>, o: Offer)
    requires FromSome(x, offers) || StoredFrom(x, o)
    ensures FromSome(x, offers + [o])
  {
    if k :| 0 <= k < |offers| && StoredFrom(x, offers[k]) {
      assert (offers + [o])[k] == offers[k];
    } else {
      assert (offers + [o])[|offers|] == o;
    }
  }

  lemma ApplyMembers(list: seq<Stored>, v: Verdict, x: Stored)
    requires list != [] && (v.Replace? ==> v.i < |list|)
    ensures forall y :: y in Apply(list, v, x) ==> y in list || y == x
  {
  }

  /** Every entry of the merged table is an offered package under its own name, with its own or its
      repository's base URL. */
  lemma {:induction false} EntriesComeFromOffers(vercmp: Vercmp, how: MergeMethod, offers: seq<Offer>)
    ensures AllStoredFrom(MergeAll(vercmp, how, offers).0, offers)
  {
    if offers != [] {
      var n := |offers| - 1;
      var before, o := MergeAll(vercmp, how, offers[..n]).0, offers[n];
      EntriesComeFromOffers(vercmp, how, offers[..n]);
      MergeAllStep(vercmp, how, offers);
      assert offers == offers[..n] + [o];
      AddKeepsOrigin(vercmp, how, before, o, offers[..n]);
    }
  }

  lemma AddKeepsOrigin(vercmp: Vercmp, how: MergeMethod, table: Table, o: Offer, offers: seq<Offer>)
    requires (forall n :: n in table ==> table[n] != []) && AllStoredFrom(table, offers)
    ensures AllStoredFrom(AddPackage(vercmp, how, table, o).1, offers + [o])
  {
    var table' := AddPackage(vercmp, how, table, o).1;
    forall name, x | x in Listed(table', name)
      ensures x.pkg.name == name && FromSome(x, offers + [o])
    {
      AddedOrThere(vercmp, how, table, o, name, x);
      FromMore(x, offers, o);
    }
  }

  lemma AddedOrThere(vercmp: Vercmp, how: MergeMethod, table: Table, o: Offer, name: string, x: Stored)
    requires forall n :: n in table ==> table[n] != []
    requires x in Listed(AddPackage(vercmp, how, table, o).1, name)
    ensures x in Listed(table, name) || (o.pkg.name == name && StoredFrom(x, o))
  {
    if o.pkg.name == name && name in table {
      var v := Scan(vercmp, how, table[name], o.pkg, 0);
      ApplyMembers(table[name], v, Stored(o.pkg, OrPath(o.base, o.path)));
    }
  }

  /** An empty base URL is kept or replaced by the path, depending on whether the package is the first of its
      name. */
  lemma EmptyBaseOfFirst(vercmp: Vercmp, how: MergeMethod, p: Package, q: Package, path: string)
    requires p.name == q.name && p.arch != q.arch
    ensures MergeAll(vercmp, how, [Offer(p, Some(""), Some(path)), Offer(q, Some(""), Some(path))]).0
      == map[p.name := [Stored(p, Some(path)), Stored(q, Some(""))]]
  {
    var offers := [Offer(p, Some(""), Some(path)), Offer(q, Some(""), Some(path))];
    assert offers[..1] == [offers[0]] && offers[..1][..0] == [];
    MergeAllStep(vercmp, how, offers);
    MergeAllStep(vercmp, how, offers[..1]);
    var first := [Stored(p, Some(path))];
    assert MergeAll(vercmp, how, []).0 == map[];
    assert MergeAll(vercmp, how, offers[..1]).0 == map[p.name := first];
    assert Scan(vercmp, how, first, q, 0) == Scan(vercmp, how, first, q, 1) == Add;
    assert Apply(first, Add, Stored(q, Some(""))) == [Stored(p, Some(path)), Stored(q, Some(""))];
  }

  // ---------------------------------------------------------------- places in a list

  /** The packages of a list of the table. */
  function PkgsOf(list: seq<Stored>): seq<Package> {
    Mapped(list, (x: Stored) => x.pkg)
  }

  /** The offered packages of a name, in the order they are offered. */
  function Named(offers: seq<Offer>, name: string): seq<Package> {
    if offers == [] then []
    else
      var p := offers[|offers| - 1].pkg;
      Named(offers[..|offers| - 1], name) + if p.name == name then [p] else []
  }

  /** What an offer does to the places of a list that is not empty: the first element stays first unless it is
      replaced by a package of its architecture, a new one goes right behind it, and all others stay where
      they are. */
  ghost predicate PlacesKept(list: seq<Stored>, list': seq<Stored>, p: Package, code: int) {
    && list != [] && list' != []
    && code in {0, 1, 2, 3}
    && (code == 0 ==> list' == list)
    && (code == 2 ==> exists i :: 0 <= i < |list| && i < |list'| && list[i].pkg.arch == p.arch && list'[i].pkg == p)
    && (list'[0] == list[0] || (code == 2 && list[0].pkg.arch == p.arch && list'[0].pkg == p))
    && (if code == 1 || code == 3 then |list'| == |list| + 1 && list'[1].pkg == p && list'[2..] == list[1..]
        else |list'| == |list| && forall i :: 0 <= i < |list| && list'[i] != list[i] ==>
          code == 2 && list[i].pkg.arch == p.arch && list'[i].pkg == p)
  }

  lemma AddKeepsPlaces(vercmp: Vercmp, how: MergeMethod, table: Table, o: Offer)
    requires (forall n :: n in table ==> table[n] != []) && o.pkg.name in table
    ensures var (code, table') := AddPackage(vercmp, how, table, o);
      PlacesKept(table[o.pkg.name], Listed(table', o.pkg.name), o.pkg, code)
  {
  }

  lemma NamedStep(offers: seq<Offer>, name: string)
    requires offers != []
    ensures var p := offers[|offers| - 1].pkg;
      Named(offers, name) == if p.name == name then Named(offers[..|offers| - 1], name) + [p]
                             else Named(offers[..|offers| - 1], name)
  {
  }

  /** Whatever is offered, the list of a name begins with a package of the architecture that was offered first
      under the name; with the package itself, if the policy replaces nothing. */
  lemma {:induction false} FirstStaysFirst(vercmp: Vercmp, how: MergeMethod, offers: seq<Offer>, name: string)
    ensures var list := Listed(MergeAll(vercmp, how, offers).0, name);
      var ps := Named(offers, name);
      && (list == [] <==> ps == [])
      && (list != [] ==> list[0].pkg.arch == ps[0].arch)
      && (list != [] && (how.FirstNa? || how.FirstNevra? || how.AllNevra?) ==> list[0].pkg == ps[0])
  {
    if offers != [] {
      var n := |offers| - 1;
      var before, o := MergeAll(vercmp, how, offers[..n]).0, offers[n];
      FirstStaysFirst(vercmp, how, offers[..n], name);
      MergeAllStep(vercmp, how, offers);
      NamedStep(offers, name);
      if o.pkg.name == name && name in before {
        AddKeepsPlaces(vercmp, how, before, o);
        ReplacesOnly(vercmp, how, before[name], o.pkg, 0);
      }
    }
  }

  /** Only two policies replace. */
  lemma {:induction false} ReplacesOnly(vercmp: Vercmp, how: MergeMethod, list: seq<Stored>, p: Package, i: nat)
    requires i <= |list|
    ensures Scan(vercmp, how, list, p, i).Replace? ==> how.NewestNa? || how.HighestNevra?
    decreases |list| - i
  {
    if i < |list| {
      ReplacesOnly(vercmp, how, list, p, i + 1);
    }
  }

  /** The first of the packages, and behind it the others, the last of them first. */
  function FirstThenLatest(ps: seq<Package>): seq<Package> {
    if ps == [] then [] else [ps[0]] + Reversed(ps[1..])
  }

  /** Keep-all: the list of a name is the first package offered, and behind it the others, the latest first. */
  lemma {:induction false} AllNevraPlaces(vercmp: Vercmp, offers: seq<Offer>, name: string)
    ensures PkgsOf(Listed(MergeAll(vercmp, AllNevra, offers).0, name)) == FirstThenLatest(Named(offers, name))
  {
    if offers != [] {
      var n := |offers| - 1;
      AllNevraPlaces(vercmp, offers[..n], name);
      MergeAllStep(vercmp, AllNevra, offers);
      NamedStep(offers, name);
      AllNevraPlacesStep(vercmp, MergeAll(vercmp, AllNevra, offers[..n]).0, offers[n], name, Named(offers[..n], name));
    }
  }

  lemma AllNevraPlacesStep(vercmp: Vercmp, table: Table, o: Offer, name: string, ps: seq<Package>)
    requires forall n :: n in table ==> table[n] != []
    requires PkgsOf(Listed(table, name)) == FirstThenLatest(ps)
    ensures PkgsOf(Listed(AddPackage(vercmp, AllNevra, table, o).1, name))
      == FirstThenLatest(if o.pkg.name == name then ps + [o.pkg] else ps)
  {
    if o.pkg.name == name && name in table {
      AddKeepsPlaces(vercmp, AllNevra, table, o);
      AllNevraAdds(vercmp, table, o);
      BehindFirst(table[name], Listed(AddPackage(vercmp, AllNevra, table, o).1, name), o.pkg, ps);
    } else if o.pkg.name == name {
      assert ps == [];
    }
  }

  lemma AllNevraAdds(vercmp: Vercmp, table: Table, o: Offer)
    requires (forall n :: n in table ==> table[n] != []) && o.pkg.name in table
    ensures AddPackage(vercmp, AllNevra, table, o).0 in {1, 3}
  {
    ScanMeaning(vercmp, AllNevra, table[o.pkg.name], o.pkg, 0);
  }

  lemma BehindFirst(list: seq<Stored>, list': seq<Stored>, p: Package, ps: seq<Package>)
    requires list != [] && |list'| == |list| + 1
    requires list'[0] == list[0] && list'[1].pkg == p && list'[2..] == list[1..]
    requires ps != [] && PkgsOf(list) == FirstThenLatest(ps)
    ensures PkgsOf(list') == FirstThenLatest(ps + [p])
  {
    assert (ps + [p])[1..] == ps[1..] + [p];
    assert Reversed(ps[1..] + [p]) == [p] + Reversed(ps[1..]);
    assert PkgsOf(list)[1..] == Reversed(ps[1..]);
    assert PkgsOf(list')[2..] == PkgsOf(list'[2..]) == PkgsOf(list[1..]) == PkgsOf(list)[1..];
  }

  // ---------------------------------------------------------------- the count

  /** The number of packages in the table. */
  ghost function TableSize(table: Table): nat
    decreases |table|
  {
    if table == map[] then 0
    else
      var n :| n in table;
      |table[n]| + TableSize(table - {n})
  }

  /** Any name may be taken out first. */
  lemma {:induction false} TableSizeWithout(table: Table, name: string)
    requires name in table
    ensures TableSize(table) == |table[name]| + TableSize(table - {name})
    decreases |table|
  {
    var n :| n in table && TableSize(table) == |table[n]| + TableSize(table - {n});
    if n != name {
      TableSizeWithout(table - {n}, name);
      TableSizeWithout(table - {name}, n);
      assert table - {n} - {name} == table - {name} - {n};
    }
  }

  lemma TableSizeUpdate(table: Table, name: string, list: seq<Stored>)
    ensures TableSize(table[name := list]) == TableSize(table) - |Listed(table, name)| + |list|
  {
    TableSizeWithout(table[name := list], name);
    assert table[name := list] - {name} == table - {name};
    if name in table {
      TableSizeWithout(table, name);
    } else {
      assert table - {name} == table;
    }
  }

  lemma {:induction false} OnlyAllNevraDuplicates(vercmp: Vercmp, how: MergeMethod, list: seq<Stored>, p: Package, i: nat)
    requires i <= |list|
    ensures Scan(vercmp, how, list, p, i).AddDuplicate? ==> how.AllNevra?
    decreases |list| - i
  {
    if i < |list| {
      OnlyAllNevraDuplicates(vercmp, how, list, p, i + 1);
    }
  }

  lemma AddPackageSize(vercmp: Vercmp, how: MergeMethod, table: Table, o: Offer)
    requires forall n :: n in table ==> table[n] != []
    ensures var (code, table') := AddPackage(vercmp, how, table, o);
      TableSize(table') == TableSize(table) + if code == 1 || code == 3 then 1 else 0
  {
    var name := o.pkg.name;
    var (code, table') := AddPackage(vercmp, how, table, o);
    AddedToList(vercmp, how, table, o);
    TableSizeUpdate(table, name, Listed(table', name));
  }

  lemma AddedToList(vercmp: Vercmp, how: MergeMethod, table: Table, o: Offer)
    requires forall n :: n in table ==> table[n] != []
    ensures var (code, table') := AddPackage(vercmp, how, table, o);
      && table' == table[o.pkg.name := Listed(table', o.pkg.name)]
      && |Listed(table', o.pkg.name)| == |Listed(table, o.pkg.name)| + if code == 1 || code == 3 then 1 else 0
  {
  }

  /** For every policy but keep-all, the count is the number of packages in the merged table. */
  lemma {:induction false} CountIsTableSize(vercmp: Vercmp, how: MergeMethod, offers: seq<Offer>)
    requires !how.AllNevra?
    ensures MergeAll(vercmp, how, offers).1 == TableSize(MergeAll(vercmp, how, offers).0)
  {
    if offers != [] {
      var n := |offers| - 1;
      var before := MergeAll(vercmp, how, offers[..n]);
      CountIsTableSize(vercmp, how, offers[..n]);
      MergeAllStep(vercmp, how, offers);
      AddPackageSize(vercmp, how, before.0, offers[n]);
      if offers[n].pkg.name in before.0 {
        OnlyAllNevraDuplicates(vercmp, how, before.0[offers[n].pkg.name], offers[n].pkg, 0);
      }
    }
  }

  lemma {:induction false} SelectMembers(offers: seq<Offer>, name: string, arch: Option<string>)
    ensures forall p :: p in Select(offers, name, arch) <==>
      exists k :: 0 <= k < |offers| && offers[k].pkg == p && p.name == name && p.arch == arch
  {
    if offers != [] {
      var n := |offers| - 1;
      SelectMembers(offers[..n], name, arch);
      forall p
        ensures p in Select(offers, name, arch) <==>
          exists k :: 0 <= k < |offers| && offers[k].pkg == p && p.name == name && p.arch == arch
      {
        if k :| 0 <= k < n && offers[k].pkg == p && p.name == name && p.arch == arch {
          assert offers[..n][k].pkg == p;
        }
      }
    }
  }

  /** Under keep-all a package is counted iff nothing of its class was offered before. */
  lemma CountedIffNewClass(vercmp: Vercmp, offers: seq<Offer>, o: Offer)
    ensures (AddPackage(vercmp, AllNevra, MergeAll(vercmp, AllNevra, offers).0, o).0 == 1) <==>
      !SomeSame(vercmp, true, o.pkg, Pkgs(offers))
  {
    var table := MergeAll(vercmp, AllNevra, offers).0;
    var p := o.pkg;
    var group := Select(offers, p.name, p.arch);
    TableIsReference(vercmp, AllNevra, offers, p.name, p.arch);
    AllNevraKeepsAll(vercmp, group);
    SelectMembers(offers, p.name, p.arch);
    SameTripleInGroup(vercmp, offers, p, group);
    CountedIffNewVersion(vercmp, table, o, group);
  }

  lemma CountedIffNewVersion(vercmp: Vercmp, table: Table, o: Offer, group: seq<Package>)
    requires forall n :: n in table ==> table[n] != []
    requires multiset(OfArch(Listed(table, o.pkg.name), o.pkg.arch)) == multiset(group)
    ensures AddPackage(vercmp, AllNevra, table, o).0 == 1 <==>
      !exists i :: 0 <= i < |group| && SameVersion(vercmp, o.pkg, group[i])
  {
    if o.pkg.name in table {
      ManyVerdict(vercmp, AllNevra, table[o.pkg.name], o.pkg, group);
    } else {
      SameMembers([], group);
    }
  }

  lemma SameTripleInGroup(vercmp: Vercmp, offers: seq<Offer>, p: Package, group: seq<Package>)
    requires forall q :: q in group <==>
      exists k :: 0 <= k < |offers| && offers[k].pkg == q && q.name == p.name && q.arch == p.arch
    ensures SomeSame(vercmp, true, p, Pkgs(offers)) <==>
      exists i :: 0 <= i < |group| && SameVersion(vercmp, p, group[i])
  {
    if j :| 0 <= j < |Pkgs(offers)| && Same(vercmp, true, p, Pkgs(offers)[j]) {
      assert offers[j].pkg in group;
    }
    if i :| 0 <= i < |group| && SameVersion(vercmp, p, group[i]) {
      assert group[i] in group;
      var k :| 0 <= k < |offers| && offers[k].pkg == group[i];
      assert Same(vercmp, true, p, Pkgs(offers)[k]);
    }
  }

  /** For keep-all, the count is the number of distinct (name, architecture, version) classes. */
  lemma {:induction false} KeepAllCountsClasses(vercmp: Vercmp, offers: seq<Offer>)
    requires Lawful(vercmp)
    ensures MergeAll(vercmp, AllNevra, offers).1 == |Firsts(vercmp, true, Pkgs(offers))|
  {
    if offers != [] {
      var n := |offers| - 1;
      KeepAllCountsClasses(vercmp, offers[..n]);
      CountedIffNewClass(vercmp, offers[..n], offers[n]);
      MergeAllStep(vercmp, AllNevra, offers);
      assert Pkgs(offers)[..n] == Pkgs(offers[..n]);
      FirstsCover(vercmp, true, Pkgs(offers[..n]), offers[n].pkg);
    }
  }
}
