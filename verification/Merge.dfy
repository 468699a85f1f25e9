/** Merging repositories (src/mergerepo_c.c, `add_package`): a table from package name to the list of packages
    kept under that name, updated by one of five policies. */
module Merge {
  import opened Basics
  import opened Sorting
  import opened Versions
  import opened Packages

  datatype MergeMethod = FirstNa | NewestNa | HighestNevra | FirstNevra | AllNevra

  /** A package in the table, with its base URL. */
  datatype Stored = Stored(pkg: Package, base: Option<string>)

  type Table = map<string, seq<Stored>>

  /** A package offered to the merge: its own base URL and the path of the repository it comes from. */
  datatype Offer = Offer(pkg: Package, base: Option<string>, path: Option<string>)

  // ---------------------------------------------------------------- add_package

  predicate SameVersion(vercmp: Vercmp, a: Package, b: Package) {
    && CmpVersionStr(vercmp, a.evr.epoch, b.evr.epoch) == 0
    && CmpVersionStr(vercmp, a.evr.version, b.evr.version) == 0
    && CmpVersionStr(vercmp, a.evr.release, b.evr.release) == 0
  }

  predicate Newer(vercmp: Vercmp, a: Package, b: Package) {
    var epoch := CmpVersionStr(vercmp, a.evr.epoch, b.evr.epoch);
    var version := CmpVersionStr(vercmp, a.evr.version, b.evr.version);
    var release := CmpVersionStr(vercmp, a.evr.release, b.evr.release);
    || epoch == 1
    || (epoch == 0 && version == 1)
    || (epoch == 0 && version == 0 && release == 1)
  }

  /** What the list of a name says to a package: drop it, put it in the place of an element, or add it. */
  datatype Verdict = Drop | Replace(i: nat) | AddDuplicate | Add

  /** What one element of the list says to a package of the same architecture. */
  function Judge(vercmp: Vercmp, how: MergeMethod, p: Package, c: Package, i: nat): Verdict {
    match how
    case FirstNa => Drop
    case NewestNa => if p.timeFile > c.timeFile then Replace(i) else Drop
    case HighestNevra => if Newer(vercmp, p, c) then Replace(i) else Drop
    case FirstNevra => if SameVersion(vercmp, p, c) then Drop else Add
    case AllNevra => if SameVersion(vercmp, p, c) then AddDuplicate else Add
  }

  /** The scan of the list from position `i`: the first element that does not say `Add` decides. */
  function Scan(vercmp: Vercmp, how: MergeMethod, list: seq<Stored>, p: Package, i: nat): (v: Verdict)
    requires i <= |list|
    ensures v.Replace? ==> v.i < |list| && list[v.i].pkg.arch == p.arch
    decreases |list| - i
  {
    if i == |list| then Add
    else if list[i].pkg.arch == p.arch && Judge(vercmp, how, p, list[i].pkg, i) != Add then
      Judge(vercmp, how, p, list[i].pkg, i)
    else Scan(vercmp, how, list, p, i + 1)
  }

  function OrPath(base: Option<string>, path: Option<string>): Option<string> {
    if base.None? then path else base
  }

  /** The first package of a name: here an empty base URL counts as missing too. */
  function FirstBase(base: Option<string>, path: Option<string>): Option<string> {
    if (base.None? || base.value == "") && path.Some? then path else base
  }

  /** The list after the verdict; a new element goes right behind the first. */
  function Apply(list: seq<Stored>, v: Verdict, x: Stored): seq<Stored>
    requires list != [] && (v.Replace? ==> v.i < |list|)
  {
    match v
    case Drop => list
    case Replace(i) => list[i := x]
    case AddDuplicate => [list[0], x] + list[1..]
    case Add => [list[0], x] + list[1..]
  }

  /** 0 not added, 1 added, 2 replaced an older package, 3 added as a duplicate. */
  function Code(v: Verdict): int {
    match v
    case Drop => 0
    case Replace(_) => 2
    case AddDuplicate => 3
    case Add => 1
  }

  function AddPackage(vercmp: Vercmp, how: MergeMethod, table: Table, o: Offer): (int, Table)
    requires forall n :: n in table ==> table[n] != []
  {
    var name := o.pkg.name;
    if name !in table then (1, table[name := [Stored(o.pkg, FirstBase(o.base, o.path))]])
    else
      var v := Scan(vercmp, how, table[name], o.pkg, 0);
      (Code(v), table[name := Apply(table[name], v, Stored(o.pkg, OrPath(o.base, o.path)))])
  }

  /** One more offer: the table and how many were counted as added (code 1). */
  function MergeOne(vercmp: Vercmp, how: MergeMethod, before: (Table, nat), o: Offer): (Table, nat)
    requires forall n :: n in before.0 ==> before.0[n] != []
  {
    var r := AddPackage(vercmp, how, before.0, o);
    (r.1, if r.0 == 1 then before.1 + 1 else before.1)
  }

  /** A whole sequence of offers. */
  function MergeAll(vercmp: Vercmp, how: MergeMethod, offers: seq<Offer>): (r: (Table, nat))
    ensures forall n :: n in r.0 ==> r.0[n] != []
  {
    if offers == [] then (map[], 0)
    else MergeOne(vercmp, how, MergeAll(vercmp, how, offers[..|offers| - 1]), offers[|offers| - 1])
  }

  function Pkgs(offers: seq<Offer>): seq<Package> {
    seq(|offers|, i requires 0 <= i < |offers| => offers[i].pkg)
  }

  // ---------------------------------------------------------------- the reference: one policy on one group

  /** The policy on the packages of one name and architecture, in the order they are offered. */
  function Keep(vercmp: Vercmp, how: MergeMethod, group: seq<Package>, p: Package): seq<Package> {
    if group == [] then [p]
    else
      match how
      case FirstNa => group
      case NewestNa => if p.timeFile > group[0].timeFile then [p] else group
      case HighestNevra => if Newer(vercmp, p, group[0]) then [p] else group
      case FirstNevra =>
        if exists i :: 0 <= i < |group| && SameVersion(vercmp, p, group[i]) then group else group + [p]
      case AllNevra => group + [p]
  }

  function KeepAll(vercmp: Vercmp, how: MergeMethod, ps: seq<Package>): seq<Package> {
    if ps == [] then [] else Keep(vercmp, how, KeepAll(vercmp, how, ps[..|ps| - 1]), ps[|ps| - 1])
  }

  /** The offered packages of one name and architecture. */
  function Select(offers: seq<Offer>, name: string, arch: Option<string>): seq<Package> {
    if offers == [] then []
    else
      var o := offers[|offers| - 1];
      Select(offers[..|offers| - 1], name, arch)
      + if o.pkg.name == name && o.pkg.arch == arch then [o.pkg] else []
  }

  /** The packages of one architecture in a list of the table. */
  function OfArch(list: seq<Stored>, arch: Option<string>): seq<Package> {
    if list == [] then []
    else (if list[0].pkg.arch == arch then [list[0].pkg] else []) + OfArch(list[1..], arch)
  }

  function Listed(table: Table, name: string): seq<Stored> {
    if name in table then table[name] else []
  }

  predicate Single(how: MergeMethod) {
    how.FirstNa? || how.NewestNa? || how.HighestNevra?
  }

  // ---------------------------------------------------------------- the table follows the reference

  lemma {:induction false} OfArchAppend(a: seq<Stored>, b: seq<Stored>, arch: Option<string>)
    ensures OfArch(a + b, arch) == OfArch(a, arch) + OfArch(b, arch)
  {
    if a == [] {
      assert a + b == b;
    } else {
      OfArchAppend(a[1..], b, arch);
      OfArchAppendFirst(a[0], a[1..], b, arch);
      assert a == [a[0]] + a[1..];
    }
  }

  lemma OfArchAppendFirst(x: Stored, tail: seq<Stored>, b: seq<Stored>, arch: Option<string>)
    requires OfArch(tail + b, arch) == OfArch(tail, arch) + OfArch(b, arch)
    ensures OfArch([x] + tail + b, arch) == OfArch([x] + tail, arch) + OfArch(b, arch)
  {
    var first := if x.pkg.arch == arch then [x.pkg] else [];
    OfArchFirst(x, tail + b, arch);
    OfArchFirst(x, tail, arch);
    Associative([x], tail, b);
    Associative(first, OfArch(tail, arch), OfArch(b, arch));
  }

  lemma OfArchFirst(x: Stored, list: seq<Stored>, arch: Option<string>)
    ensures OfArch([x] + list, arch) == (if x.pkg.arch == arch then [x.pkg] else []) + OfArch(list, arch)
  {
    assert ([x] + list)[1..] == list;
  }

  lemma {:induction false} OfArchMembers(list: seq<Stored>, arch: Option<string>)
    ensures forall p :: p in OfArch(list, arch) <==> exists i :: 0 <= i < |list| && list[i].pkg == p && p.arch == arch
  {
    if list != [] {
      OfArchMembers(list[1..], arch);
      forall p
        ensures p in OfArch(list, arch) <==> exists i :: 0 <= i < |list| && list[i].pkg == p && p.arch == arch
      {
        if p in OfArch(list[1..], arch) {
          var i :| 0 <= i < |list[1..]| && list[1..][i].pkg == p && p.arch == arch;
          assert list[i + 1].pkg == p;
        }
        if i :| 0 <= i < |list| && list[i].pkg == p && p.arch == arch {
          assert i > 0 ==> list[1..][i - 1].pkg == p;
        }
      }
    }
  }

  lemma OfArchInsert(list: seq<Stored>, x: Stored, arch: Option<string>)
    requires list != []
    ensures multiset(OfArch([list[0], x] + list[1..], arch))
      == multiset(OfArch(list, arch)) + multiset(if x.pkg.arch == arch then [x.pkg] else [])
  {
    OfArchFirst(list[0], [x] + list[1..], arch);
    OfArchFirst(x, list[1..], arch);
    OfArchFirst(list[0], list[1..], arch);
    assert [list[0], x] + list[1..] == [list[0]] + ([x] + list[1..]);
    assert list == [list[0]] + list[1..];
  }

  lemma OfArchReplace(list: seq<Stored>, i: nat, x: Stored, arch: Option<string>)
    requires i < |list| && list[i].pkg.arch == x.pkg.arch
    ensures arch != x.pkg.arch ==> OfArch(list[i := x], arch) == OfArch(list, arch)
    ensures arch == x.pkg.arch && |OfArch(list, arch)| <= 1 ==>
      OfArch(list, arch) == [list[i].pkg] && OfArch(list[i := x], arch) == [x.pkg]
  {
    OfArchAppend(list[..i], list[i..], arch);
    OfArchAppend(list[..i], [x] + list[i + 1..], arch);
    assert list == list[..i] + list[i..];
    assert list[i := x] == list[..i] + ([x] + list[i + 1..]);
    assert list[i..][1..] == list[i + 1..] && ([x] + list[i + 1..])[1..] == list[i + 1..];
  }

  /** The scan is the policy's question about all elements of the same architecture. */
  lemma {:induction false} ScanMeaning(vercmp: Vercmp, how: MergeMethod, list: seq<Stored>, p: Package, i: nat)
    requires i <= |list|
    ensures var v := Scan(vercmp, how, list, p, i);
      && (Single(how) ==>
           && (v == Add <==> forall j :: i <= j < |list| ==> list[j].pkg.arch != p.arch)
           && (v != Add ==> exists j ::
                i <= j < |list| && list[j].pkg.arch == p.arch && v == Judge(vercmp, how, p, list[j].pkg, j)))
      && (!Single(how) ==>
           && v == (if exists j :: i <= j < |list| && list[j].pkg.arch == p.arch && SameVersion(vercmp, p, list[j].pkg)
                    then (if how.FirstNevra? then Drop else AddDuplicate)
                    else Add))
    decreases |list| - i
  {
    if i < |list| {
      ScanMeaning(vercmp, how, list, p, i + 1);
    }
  }

  lemma ApplyOtherArch(list: seq<Stored>, v: Verdict, x: Stored, arch: Option<string>)
    requires list != [] && (v.Replace? ==> v.i < |list| && list[v.i].pkg.arch == x.pkg.arch)
    requires x.pkg.arch != arch
    ensures multiset(OfArch(Apply(list, v, x), arch)) == multiset(OfArch(list, arch))
  {
    OfArchInsert(list, x, arch);
    if v.Replace? {
      OfArchReplace(list, v.i, x, arch);
    }
  }

  lemma ApplySingle(vercmp: Vercmp, how: MergeMethod, list: seq<Stored>, x: Stored, group: seq<Package>)
    requires list != [] && Single(how) && |group| <= 1
    requires multiset(OfArch(list, x.pkg.arch)) == multiset(group)
    ensures multiset(OfArch(Apply(list, Scan(vercmp, how, list, x.pkg, 0), x), x.pkg.arch))
      == multiset(Keep(vercmp, how, group, x.pkg))
  {
    var v := Scan(vercmp, how, list, x.pkg, 0);
    SingleStep(vercmp, how, list, x, group);
    if v.Replace? {
      OfArchReplace(list, v.i, x, x.pkg.arch);
    } else {
      OfArchInsert(list, x, x.pkg.arch);
    }
  }

  lemma ApplyMany(vercmp: Vercmp, how: MergeMethod, list: seq<Stored>, x: Stored, group: seq<Package>)
    requires list != [] && !Single(how)
    requires multiset(OfArch(list, x.pkg.arch)) == multiset(group)
    ensures multiset(OfArch(Apply(list, Scan(vercmp, how, list, x.pkg, 0), x), x.pkg.arch))
      == multiset(Keep(vercmp, how, group, x.pkg))
  {
    ManyVerdict(vercmp, how, list, x.pkg, group);
    OfArchInsert(list, x, x.pkg.arch);
  }

  lemma ManyVerdict(vercmp: Vercmp, how: MergeMethod, list: seq<Stored>, p: Package, group: seq<Package>)
    requires !Single(how) && multiset(OfArch(list, p.arch)) == multiset(group)
    ensures var v := Scan(vercmp, how, list, p, 0);
      && !v.Replace?
      && (v.AddDuplicate? <==>
           how.AllNevra? && exists i :: 0 <= i < |group| && SameVersion(vercmp, p, group[i]))
      && (v.Drop? ==> Keep(vercmp, how, group, p) == group)
      && (!v.Drop? ==> Keep(vercmp, how, group, p) == group + [p])
  {
    ScanMeaning(vercmp, how, list, p, 0);
    GroupHasSameVersion(vercmp, list, group, p);
  }

  /** Whether an equal version is there can be asked of the list or of the group. */
  lemma GroupHasSameVersion(vercmp: Vercmp, list: seq<Stored>, group: seq<Package>, p: Package)
    requires multiset(OfArch(list, p.arch)) == multiset(group)
    ensures (exists j :: 0 <= j < |list| && list[j].pkg.arch == p.arch && SameVersion(vercmp, p, list[j].pkg))
      <==> (exists i :: 0 <= i < |group| && SameVersion(vercmp, p, group[i]))
  {
    OfArchMembers(list, p.arch);
    SameMembers(OfArch(list, p.arch), group);
    ExistsEither(vercmp, list, group, p);
  }

  /** One step of `add_package` is one step of the reference, for every name and architecture. */
  lemma AddFollowsKeep(vercmp: Vercmp, how: MergeMethod, table: Table, o: Offer, name: string, arch: Option<string>,
                       group: seq<Package>)
    requires forall n :: n in table ==> table[n] != []
    requires multiset(OfArch(Listed(table, name), arch)) == multiset(group)
    requires Single(how) ==> |group| <= 1
    ensures multiset(OfArch(Listed(AddPackage(vercmp, how, table, o).1, name), arch))
      == multiset(if o.pkg.name == name && o.pkg.arch == arch then Keep(vercmp, how, group, o.pkg) else group)
  {
    var list := Listed(table, name);
    if o.pkg.name != name {
      assert Listed(AddPackage(vercmp, how, table, o).1, name) == list;
    } else if name !in table {
      var x := Stored(o.pkg, FirstBase(o.base, o.path));
      SameMembers([], group);
      assert Listed(AddPackage(vercmp, how, table, o).1, name) == [x];
      assert OfArch([x], arch) == if o.pkg.arch == arch then [o.pkg] else [];
    } else {
      var x := Stored(o.pkg, OrPath(o.base, o.path));
      var v := Scan(vercmp, how, list, o.pkg, 0);
      assert Listed(AddPackage(vercmp, how, table, o).1, name) == Apply(list, v, x);
      if o.pkg.arch != arch {
        ApplyOtherArch(list, v, x, arch);
      } else if Single(how) {
        ApplySingle(vercmp, how, list, x, group);
      } else {
        ApplyMany(vercmp, how, list, x, group);
      }
    }
  }

  lemma ExistsEither(vercmp: Vercmp, list: seq<Stored>, group: seq<Package>, p: Package)
    requires forall q :: q in group <==> exists i :: 0 <= i < |list| && list[i].pkg == q && q.arch == p.arch
    ensures (exists j :: 0 <= j < |list| && list[j].pkg.arch == p.arch && SameVersion(vercmp, p, list[j].pkg))
      <==> (exists i :: 0 <= i < |group| && SameVersion(vercmp, p, group[i]))
  {
    if j :| 0 <= j < |list| && list[j].pkg.arch == p.arch && SameVersion(vercmp, p, list[j].pkg) {
      assert list[j].pkg in group;
    }
    if i :| 0 <= i < |group| && SameVersion(vercmp, p, group[i]) {
      assert group[i] in group;
    }
  }

  lemma SingletonIs(group: seq<Package>, p: Package)
    requires |group| <= 1 && p in group
    ensures group == [p]
  {
  }

  lemma JudgeIsKeep(vercmp: Vercmp, how: MergeMethod, p: Package, c: Package, j: nat)
    requires Single(how)
    ensures var v := Judge(vercmp, how, p, c, j);
      && (v.Drop? || v.Replace?)
      && Keep(vercmp, how, [c], p) == if v.Drop? then [c] else [p]
  {
  }

  lemma FirstOfArch(list: seq<Stored>, j: nat, group: seq<Package>)
    requires j < |list| && |group| <= 1 && multiset(OfArch(list, list[j].pkg.arch)) == multiset(group)
    ensures group == [list[j].pkg]
  {
    OfArchMembers(list, list[j].pkg.arch);
    SameMembers(OfArch(list, list[j].pkg.arch), group);
    SingletonIs(group, list[j].pkg);
  }

  lemma NoneOfArch(list: seq<Stored>, arch: Option<string>, group: seq<Package>)
    requires multiset(OfArch(list, arch)) == multiset(group)
    requires forall j :: 0 <= j < |list| ==> list[j].pkg.arch != arch
    ensures group == []
  {
    OfArchMembers(list, arch);
    SameMembers(OfArch(list, arch), group);
    NoMembers(group);
  }

  lemma SingleStep(vercmp: Vercmp, how: MergeMethod, list: seq<Stored>, x: Stored, group: seq<Package>)
    requires list != [] && Single(how) && |group| <= 1
    requires multiset(OfArch(list, x.pkg.arch)) == multiset(group)
    ensures var v := Scan(vercmp, how, list, x.pkg, 0);
      && !v.AddDuplicate?
      && (v.Add? ==> group == [])
      && (v.Drop? ==> Keep(vercmp, how, group, x.pkg) == group)
      && (v.Replace? ==> Keep(vercmp, how, group, x.pkg) == [x.pkg])
      && |OfArch(list, x.pkg.arch)| <= 1
  {
    ScanMeaning(vercmp, how, list, x.pkg, 0);
    SameMembers(OfArch(list, x.pkg.arch), group);
    var v := Scan(vercmp, how, list, x.pkg, 0);
    if v == Add {
      NoneOfArch(list, x.pkg.arch, group);
    } else {
      var j :| 0 <= j < |list| && list[j].pkg.arch == x.pkg.arch && v == Judge(vercmp, how, x.pkg, list[j].pkg, j);
      FirstOfArch(list, j, group);
      JudgeIsKeep(vercmp, how, x.pkg, list[j].pkg, j);
    }
  }

  lemma NoMembers(group: seq<Package>)
    requires forall p :: p !in group
    ensures group == []
  {
    HeadIsMember(group);
  }

  lemma {:induction false} KeepAllSingle(vercmp: Vercmp, how: MergeMethod, ps: seq<Package>)
    requires Single(how)
    ensures |KeepAll(vercmp, how, ps)| == if ps == [] then 0 else 1
  {
    if ps != [] {
      KeepAllSingle(vercmp, how, ps[..|ps| - 1]);
    }
  }

  /** Whatever is offered, the table holds for every name and architecture what the policy keeps of the
      offered packages of that name and architecture. */
  lemma {:induction false} TableIsReference(vercmp: Vercmp, how: MergeMethod, offers: seq<Offer>, name: string,
                                            arch: Option<string>)
    ensures multiset(OfArch(Listed(MergeAll(vercmp, how, offers).0, name), arch))
      == multiset(KeepAll(vercmp, how, Select(offers, name, arch)))
  {
    if offers != [] {
      var n := |offers| - 1;
      var o := offers[n];
      var ps := Select(offers[..n], name, arch);
      TableIsReference(vercmp, how, offers[..n], name, arch);
      if Single(how) {
        KeepAllSingle(vercmp, how, ps);
      }
      MergeAllStep(vercmp, how, offers);
      AddFollowsKeep(vercmp, how, MergeAll(vercmp, how, offers[..n]).0, o, name, arch, KeepAll(vercmp, how, ps));
      KeepAllAppend(vercmp, how, ps, o.pkg);
      assert ps + [] == ps;
    }
  }

  lemma MergeAllStep(vercmp: Vercmp, how: MergeMethod, offers: seq<Offer>)
    requires offers != []
    ensures var n := |offers| - 1;
      var before := MergeAll(vercmp, how, offers[..n]);
      MergeAll(vercmp, how, offers) == MergeOne(vercmp, how, before, offers[n])
  {
  }

  lemma KeepAllAppend(vercmp: Vercmp, how: MergeMethod, ps: seq<Package>, p: Package)
    ensures KeepAll(vercmp, how, ps + [p]) == Keep(vercmp, how, KeepAll(vercmp, how, ps), p)
  {
    assert (ps + [p])[..|ps|] == ps;
  }
}
