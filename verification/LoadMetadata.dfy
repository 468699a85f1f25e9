/** Loading metadata with duplicates (src/load_metadata.c): the package callback of the primary.xml parser, and
    the re-keying of what was parsed into the user's table. */
module LoadMetadata {
  import opened Basics
  import opened Nevra

  datatype Pkg = Pkg(pkgId: string, name: string, href: string, timeFile: int, sizePackage: int)

  // ---------------------------------------------------------------- parsing primary.xml

  /** A stored package with its pkgKey. */
  datatype Entry = Entry(pkg: Pkg, pkgKey: nat)

  /** `ht`, `ignored_pkgIds` and `pkgKey` of `cr_CbData`. */
  datatype Parsed = Parsed(ht: map<string, Entry>, ignored: set<string>, pkgKey: nat)

  /** With a package list only packages whose basename is on it are looked at. */
  predicate Listed(pkglist: Option<set<string>>, p: Pkg) {
    pkglist.None? || GetFilename(p.href) in pkglist.value
  }

  predicate SameFile(p: Pkg, q: Pkg) {
    p.timeFile == q.timeFile && p.sizePackage == q.sizePackage
  }

  /** primary_pkgcb. The third comparison is of the package's basename with itself, as the code has it. */
  function PrimaryPkg(pkglist: Option<set<string>>, s: Parsed, p: Pkg): Parsed {
    if !Listed(pkglist, p) || p.pkgId in s.ignored then s
    else if p.pkgId !in s.ht then
      Parsed(s.ht[p.pkgId := Entry(p, s.pkgKey + 1)], s.ignored, s.pkgKey + 1)
    else
      var basename := GetFilename(p.href);
      if SameFile(s.ht[p.pkgId].pkg, p) && GetFilename(p.href) == basename then s
      else Parsed(s.ht - {p.pkgId}, s.ignored + {p.pkgId}, s.pkgKey)
  }

  function ParseAll(pkglist: Option<set<string>>, ps: seq<Pkg>): Parsed {
    if ps == [] then Parsed(map[], {}, 0)
    else PrimaryPkg(pkglist, ParseAll(pkglist, ps[..|ps| - 1]), ps[|ps| - 1])
  }

  /** The packages that are looked at. */
  function Considered(pkglist: Option<set<string>>, ps: seq<Pkg>): seq<Pkg> {
    if ps == [] then []
    else
      var p := ps[|ps| - 1];
      Considered(pkglist, ps[..|ps| - 1])
      + if pkglist.None? || GetFilename(p.href) in pkglist.value then [p] else []
  }

  lemma ParseAllStep(pkglist: Option<set<string>>, ps: seq<Pkg>, p: Pkg)
    ensures ParseAll(pkglist, ps + [p]) == PrimaryPkg(pkglist, ParseAll(pkglist, ps), p)
  {
    assert (ps + [p])[..|ps|] == ps;
  }

  /** Packages that are not on the list leave no trace. */
  lemma {:induction false} OnlyConsideredCount(pkglist: Option<set<string>>, ps: seq<Pkg>)
    ensures ParseAll(pkglist, ps) == ParseAll(None, Considered(pkglist, ps))
  {
    if ps != [] {
      var n := |ps| - 1;
      OnlyConsideredCount(pkglist, ps[..n]);
      assert ps == ps[..n] + [ps[n]];
      ParseAllStep(pkglist, ps[..n], ps[n]);
      ParseAllStep(None, Considered(pkglist, ps[..n]), ps[n]);
      assert Considered(pkglist, ps[..n]) + [] == Considered(pkglist, ps[..n]);
    }
  }

  /** The packages with an id, in the order they are listed. */
  function WithId(ps: seq<Pkg>, id: string): seq<Pkg> {
    if ps == [] then []
    else WithId(ps[..|ps| - 1], id) + if ps[|ps| - 1].pkgId == id then [ps[|ps| - 1]] else []
  }

  datatype Status = Unseen | Stored(pkg: Pkg) | Blocked

  function StatusOf(s: Parsed, id: string): Status {
    if id in s.ignored then Blocked else if id in s.ht then Stored(s.ht[id].pkg) else Unseen
  }

  predicate Uniform(ps: seq<Pkg>) {
    forall i :: 0 <= i < |ps| ==> ps[0].timeFile == ps[i].timeFile && ps[0].sizePackage == ps[i].sizePackage
  }

  /** What the packages of an id, in the order they are listed, make of it. */
  function Verdict(same: seq<Pkg>): Status {
    if same == [] then Unseen else if Uniform(same) then Stored(same[0]) else Blocked
  }

  /** After any list of packages: an id is blocked iff its packages disagree on mtime or size, else its first
      package is stored; no id is both stored and blocked. */
  lemma {:induction false} ParsingMeaning(ps: seq<Pkg>, id: string)
    ensures var s := ParseAll(None, ps);
      && StatusOf(s, id) == Verdict(WithId(ps, id))
      && !(id in s.ht && id in s.ignored)
  {
    if ps != [] {
      var n := |ps| - 1;
      ParsingMeaning(ps[..n], id);
      assert ps == ps[..n] + [ps[n]];
      ParseAllStep(None, ps[..n], ps[n]);
      if ps[n].pkgId == id {
        PrimaryPkgIsVerdict(ParseAll(None, ps[..n]), WithId(ps[..n], id), ps[n]);
      } else {
        assert WithId(ps, id) == WithId(ps[..n], id) + [] == WithId(ps[..n], id);
      }
    }
  }

  lemma PrimaryPkgIsVerdict(s: Parsed, same: seq<Pkg>, p: Pkg)
    requires StatusOf(s, p.pkgId) == Verdict(same) && !(p.pkgId in s.ht && p.pkgId in s.ignored)
    ensures var s' := PrimaryPkg(None, s, p);
      StatusOf(s', p.pkgId) == Verdict(same + [p]) && !(p.pkgId in s'.ht && p.pkgId in s'.ignored)
  {
    UniformStep(same, p);
  }

  lemma UniformStep(same: seq<Pkg>, p: Pkg)
    ensures same != [] ==> (same + [p])[0] == same[0]
    ensures Uniform(same + [p]) <==> Uniform(same) && SameFile((same + [p])[0], p)
  {
    var all := same + [p];
    assert forall i :: 0 <= i < |same| ==> all[i] == same[i];
    assert all[|same|] == p;
    if Uniform(same) && SameFile(all[0], p) {
      forall i | 0 <= i < |all|
        ensures all[0].timeFile == all[i].timeFile && all[0].sizePackage == all[i].sizePackage
      {
        assert i < |same| ==> all[i] == same[i];
      }
    }
  }

  /** A blocked id stays blocked for the rest of the load. */
  lemma {:induction false} BlockedForever(ps: seq<Pkg>, more: seq<Pkg>, id: string)
    requires id in ParseAll(None, ps).ignored
    ensures id in ParseAll(None, ps + more).ignored && id !in ParseAll(None, ps + more).ht
  {
    ParsingMeaning(ps + more, id);
    if more == [] {
      assert ps + more == ps;
    } else {
      BlockedForever(ps, more[..|more| - 1], id);
      assert ps + more == (ps + more[..|more| - 1]) + [more[|more| - 1]];
      ParseAllStep(None, ps + more[..|more| - 1], more[|more| - 1]);
    }
  }

  /** The ids in the order they are first listed. */
  function Ids(ps: seq<Pkg>): seq<string> {
    if ps == [] then []
    else
      var before := Ids(ps[..|ps| - 1]);
      if ps[|ps| - 1].pkgId in before then before else before + [ps[|ps| - 1].pkgId]
  }

  /** pkgKey numbers the ids in the order they are first listed, whether or not they are blocked later. */
  lemma {:induction false} PkgKeyIsOrder(ps: seq<Pkg>)
    ensures var s := ParseAll(None, ps);
      && s.pkgKey == |Ids(ps)|
      && (forall id :: id in Ids(ps) <==> id in s.ht || id in s.ignored)
      && (forall id :: id in s.ht ==> 0 < s.ht[id].pkgKey <= |Ids(ps)| && Ids(ps)[s.ht[id].pkgKey - 1] == id)
  {
    if ps != [] {
      var n := |ps| - 1;
      PkgKeyIsOrder(ps[..n]);
      assert ps == ps[..n] + [ps[n]];
      ParseAllStep(None, ps[..n], ps[n]);
    }
  }

  predicate SameBasenames(ps: seq<Pkg>) {
    forall i :: 0 <= i < |ps| ==> GetFilename(ps[0].href) == GetFilename(ps[i].href)
  }

  /** What the messages of the code announce: an id is blocked when its packages differ in basename, mtime or size. */
  predicate AnnouncedBlocked(ps: seq<Pkg>, id: string) {
    !Uniform(WithId(ps, id)) || !SameBasenames(WithId(ps, id))
  }

  /** The announcement holds of an id, except exactly when all its packages agree on mtime and size and two of
      them have different basenames. */
  lemma BlocksAsAnnouncedIff(pkglist: Option<set<string>>, listed: seq<Pkg>, id: string)
    ensures var ps := Considered(pkglist, listed);
      (id in ParseAll(pkglist, listed).ignored <==> AnnouncedBlocked(ps, id))
      <==> !(Uniform(WithId(ps, id)) && !SameBasenames(WithId(ps, id)))
  {
    OnlyConsideredCount(pkglist, listed);
    ParsingMeaning(Considered(pkglist, listed), id);
  }

  /** Contrary to the comments in the code, packages that differ only in their basename do not block their
      id: the code compares the basename with itself. */
  lemma BasenamesAreNotCompared(p: Pkg, q: Pkg)
    requires p.pkgId == q.pkgId && SameFile(p, q)
    ensures ParseAll(None, [p, q]).ht == map[p.pkgId := Entry(p, 1)]
    ensures ParseAll(None, [p, q]).ignored == {}
  {
    ParseAllStep(None, [], p);
    ParseAllStep(None, [p], q);
    assert [] + [p] == [p] && [p] + [q] == [p, q];
  }

  // ---------------------------------------------------------------- parsing filelists.xml and other.xml

  /** newpkgcb: whether the listed data is attached, and the ids whose data is loaded. */
  function NewPkg(stored: set<string>, loaded: set<string>, id: string): (bool, set<string>) {
    if id in stored && id !in loaded then (true, loaded + {id}) else (false, loaded)
  }

  function LoadedIds(stored: set<string>, ids: seq<string>): set<string> {
    if ids == [] then {} else NewPkg(stored, LoadedIds(stored, ids[..|ids| - 1]), ids[|ids| - 1]).1
  }

  lemma {:induction false} LoadedIdsAre(stored: set<string>, ids: seq<string>)
    ensures forall id :: id in LoadedIds(stored, ids) <==> id in stored && id in ids
  {
    if ids != [] {
      LoadedIdsAre(stored, ids[..|ids| - 1]);
      assert ids == ids[..|ids| - 1] + [ids[|ids| - 1]];
    }
  }

  /** The data of position `k` is attached iff its id is stored and is not listed before; so every stored package
      gets its data from the first listing, and a blocked one gets none. */
  lemma FirstListingIsAttached(stored: set<string>, ids: seq<string>, k: nat)
    requires k < |ids|
    ensures NewPkg(stored, LoadedIds(stored, ids[..k]), ids[k]).0
      <==> ids[k] in stored && forall j :: 0 <= j < k ==> ids[j] != ids[k]
  {
    LoadedIdsAre(stored, ids[..k]);
    if j :| 0 <= j < k && ids[j] == ids[k] {
      assert ids[..k][j] == ids[k];
    }
  }

  // ---------------------------------------------------------------- re-keying

  datatype KeyKind = ByFilename | ByHref | ByHash | ByName

  function KeyOf(kind: KeyKind, p: Pkg): string {
    match kind
    case ByFilename => GetFilename(p.href)
    case ByHref => GetCleanedHref(p.href)
    case ByHash => p.pkgId
    case ByName => p.name
  }

  /** `n` times "./". */
  function DotSlashes(n: nat): string {
    if n == 0 then "" else "./" + DotSlashes(n - 1)
  }

  /** The key of a package, of each kind: what follows the last '/' of its href; the href without all "./" it
      begins with; its id; its name. */
  ghost predicate IsKey(kind: KeyKind, p: Pkg, key: string) {
    match kind
    case ByFilename => IsFilename(p.href, key)
    case ByHref => IsCleaned(p.href, key)
    case ByHash => key == p.pkgId
    case ByName => key == p.name
  }

  /** What follows the last '/', or everything. */
  ghost predicate IsFilename(href: string, key: string) {
    '/' !in key && (href == key || exists dir :: href == dir + "/" + key)
  }

  /** What follows all "./" at the beginning. */
  ghost predicate IsCleaned(href: string, key: string) {
    !StartsDotSlash(key) && exists n: nat :: href == DotSlashes(n) + key
  }

  predicate StartsDotSlash(s: string) {
    |s| >= 2 && s[0] == '.' && s[1] == '/'
  }

  /** Each package has one key of each kind, and that is the one the code computes. */
  lemma KeyOfIsKey(kind: KeyKind, p: Pkg, key: string)
    ensures KeyOf(kind, p) == key <==> IsKey(kind, p, key)
  {
    match kind
    case ByFilename => FilenameIsKey(p, key);
    case ByHref => HrefIsKey(p, key);
    case _ =>
  }

  lemma FilenameIsKey(p: Pkg, key: string)
    ensures GetFilename(p.href) == key <==> IsFilename(p.href, key)
  {
    if '/' in p.href {
      Reassemble(p.href, '/');
      assert p.href == BeforeLast(p.href, '/') + "/" + GetFilename(p.href);
    }
    if dir :| '/' !in key && p.href == dir + "/" + key {
      FilenameInDirectory(dir, key);
    }
  }

  lemma HrefIsKey(p: Pkg, key: string)
    ensures GetCleanedHref(p.href) == key <==> IsCleaned(p.href, key)
  {
    var n := CleanedHref(p.href);
    if m: nat :| !StartsDotSlash(key) && p.href == DotSlashes(m) + key {
      CleansDotSlashes(m, key);
    }
  }

  lemma {:induction false} CleanedHref(href: string) returns (n: nat)
    ensures href == DotSlashes(n) + GetCleanedHref(href)
    ensures !StartsDotSlash(GetCleanedHref(href))
  {
    if StartsDotSlash(href) {
      assert href[..2] == "./";
      var m := CleanedHref(href[2..]);
      n := m + 1;
      assert href == "./" + href[2..];
      Associative("./", DotSlashes(m), GetCleanedHref(href[2..]));
    } else {
      n := 0;
      assert |href| >= 2 ==> href[..2][0] == href[0] && href[..2][1] == href[1];
    }
  }

  lemma {:induction false} CleansDotSlashes(n: nat, key: string)
    requires !StartsDotSlash(key)
    ensures GetCleanedHref(DotSlashes(n) + key) == key
  {
    if n == 0 {
      assert DotSlashes(0) + key == key;
      assert |key| >= 2 ==> key[..2][0] == key[0] && key[..2][1] == key[1];
    } else {
      var href := DotSlashes(n) + key;
      Associative("./", DotSlashes(n - 1), key);
      assert href[..2] == "./" && href[2..] == DotSlashes(n - 1) + key;
      CleansDotSlashes(n - 1, key);
    }
  }

  /** The four fields that must agree for two packages under one key to count as the same. */
  predicate Agree(p: Pkg, q: Pkg) {
    && p.timeFile == q.timeFile
    && p.sizePackage == q.sizePackage
    && p.pkgId == q.pkgId
    && GetFilename(p.href) == GetFilename(q.href)
  }

  /** One package of the iteration over what was parsed: table and keys to be dropped at the end. */
  function RekeyOne(kind: KeyKind, keepFirst: bool, ht: map<string, Pkg>, ignored: set<string>, p: Pkg)
    : (map<string, Pkg>, set<string>)
  {
    var key := KeyOf(kind, p);
    if key !in ht then (ht[key := p], ignored)
    else if keepFirst || Agree(p, ht[key]) then (ht, ignored)
    else (ht, ignored + {key})
  }

  function RekeyAll(kind: KeyKind, keepFirst: bool, ht: map<string, Pkg>, ps: seq<Pkg>): (map<string, Pkg>, set<string>)
  {
    if ps == [] then (ht, {})
    else
      var (mid, ignored) := RekeyAll(kind, keepFirst, ht, ps[..|ps| - 1]);
      RekeyOne(kind, keepFirst, mid, ignored, ps[|ps| - 1])
  }

  /** The table after the load. */
  function Loaded(kind: KeyKind, keepFirst: bool, ht: map<string, Pkg>, ps: seq<Pkg>): map<string, Pkg> {
    var (all, ignored) := RekeyAll(kind, keepFirst, ht, ps);
    all - ignored
  }

  /** The parsed packages under a key, in iteration order. */
  function Under(kind: KeyKind, ps: seq<Pkg>, key: string): seq<Pkg> {
    if ps == [] then []
    else Under(kind, ps[..|ps| - 1], key) + if KeyOf(kind, ps[|ps| - 1]) == key then [ps[|ps| - 1]] else []
  }

  /** The package that represents a key: the one from before the load, or the first iterated. */
  function Representative(kind: KeyKind, ht: map<string, Pkg>, ps: seq<Pkg>, key: string): Option<Pkg> {
    if key in ht then Some(ht[key])
    else if Under(kind, ps, key) == [] then None
    else Some(Under(kind, ps, key)[0])
  }

  function Get(ht: map<string, Pkg>, key: string): Option<Pkg> {
    if key in ht then Some(ht[key]) else None
  }

  lemma RekeyOneMeaning(kind: KeyKind, keepFirst: bool, all: map<string, Pkg>, ignored: set<string>, p: Pkg, key: string)
    ensures var (all', ignored') := RekeyOne(kind, keepFirst, all, ignored, p);
      if KeyOf(kind, p) != key then
        Get(all', key) == Get(all, key) && (key in ignored' <==> key in ignored)
      else
        && Get(all', key) == (if key in all then Some(all[key]) else Some(p))
        && (key in ignored' <==> key in ignored || (!keepFirst && key in all && !Agree(p, all[key])))
  {
  }

  lemma {:induction false} RekeyMeaning(kind: KeyKind, keepFirst: bool, ht: map<string, Pkg>, ps: seq<Pkg>, key: string)
    ensures var (all, ignored) := RekeyAll(kind, keepFirst, ht, ps);
      var rep := Representative(kind, ht, ps, key);
      && Get(all, key) == rep
      && (key in ignored <==> !keepFirst && rep.Some? && exists p :: p in Under(kind, ps, key) && !Agree(p, rep.value))
  {
    if ps != [] {
      var n := |ps| - 1;
      var before := Under(kind, ps[..n], key);
      RekeyMeaning(kind, keepFirst, ht, ps[..n], key);
      var (all, ignored) := RekeyAll(kind, keepFirst, ht, ps[..n]);
      RekeyOneMeaning(kind, keepFirst, all, ignored, ps[n], key);
      MemberAppend(before, ps[n]);
      assert before + [] == before;
    }
  }

  lemma MemberAppend(ps: seq<Pkg>, p: Pkg)
    ensures forall q :: q in ps + [p] <==> q in ps || q == p
    ensures ps != [] ==> (ps + [p])[0] == ps[0]
  {
  }

  /** All packages under the key, old and new, agree on the time and size of their file, id and basename. */
  ghost predicate AllAgree(kind: KeyKind, ht: map<string, Pkg>, ps: seq<Pkg>, key: string) {
    forall p, q :: Belongs(kind, ht, ps, key, p) && Belongs(kind, ht, ps, key, q) ==>
      && p.timeFile == q.timeFile
      && p.sizePackage == q.sizePackage
      && p.pkgId == q.pkgId
      && GetFilename(p.href) == GetFilename(q.href)
  }

  predicate Belongs(kind: KeyKind, ht: map<string, Pkg>, ps: seq<Pkg>, key: string, p: Pkg) {
    p in Under(kind, ps, key) || Get(ht, key) == Some(p)
  }

  /** REMOVEALL: a key touched by the load survives iff the earlier entry and all new packages under it agree;
      it then holds the earlier entry, or else one of the new packages. Untouched keys are unchanged. */
  lemma RemoveAllMeaning(kind: KeyKind, ht: map<string, Pkg>, ps: seq<Pkg>, key: string)
    ensures var after := Loaded(kind, false, ht, ps);
      && (Under(kind, ps, key) == [] ==> Get(after, key) == Get(ht, key))
      && (Under(kind, ps, key) != [] ==>
           && (key in after <==> AllAgree(kind, ht, ps, key))
           && (key in after ==>
                if key in ht then after[key] == ht[key] else after[key] in Under(kind, ps, key)))
  {
    RekeyMeaning(kind, false, ht, ps, key);
    var under := Under(kind, ps, key);
    var rep := Representative(kind, ht, ps, key);
    if under != [] {
      assert Belongs(kind, ht, ps, key, rep.value);
      AgreeWithOne(kind, ht, ps, key, rep.value);
    }
  }

  /** Agreement of all is agreement with one of them. */
  lemma AgreeWithOne(kind: KeyKind, ht: map<string, Pkg>, ps: seq<Pkg>, key: string, one: Pkg)
    requires Belongs(kind, ht, ps, key, one) && (key in ht ==> ht[key] == one)
    ensures AllAgree(kind, ht, ps, key) <==> forall p :: p in Under(kind, ps, key) ==> Agree(p, one)
  {
    if forall p :: p in Under(kind, ps, key) ==> Agree(p, one) {
      forall p | Belongs(kind, ht, ps, key, p)
        ensures Agree(p, one)
      {
      }
    }
    if AllAgree(kind, ht, ps, key) {
      forall p | p in Under(kind, ps, key)
        ensures Agree(p, one)
      {
        assert Belongs(kind, ht, ps, key, p);
      }
    }
  }

  lemma {:induction false} UnderMembers(kind: KeyKind, ps: seq<Pkg>, key: string)
    ensures forall p :: p in Under(kind, ps, key) <==> p in ps && KeyOf(kind, p) == key
  {
    if ps != [] {
      var n := |ps| - 1;
      UnderMembers(kind, ps[..n], key);
      assert ps == ps[..n] + [ps[n]];
    }
  }

  /** REMOVEALL does not depend on the order of the iteration: the same keys survive, with packages that
      agree, and earlier entries are the same. */
  lemma RemoveAllIgnoresOrder(kind: KeyKind, ht: map<string, Pkg>, ps: seq<Pkg>, qs: seq<Pkg>, key: string)
    requires multiset(ps) == multiset(qs)
    ensures var a := Get(Loaded(kind, false, ht, ps), key);
      var b := Get(Loaded(kind, false, ht, qs), key);
      && (a.Some? <==> b.Some?)
      && (a.Some? ==> Agree(a.value, b.value))
      && (key in ht ==> a == b)
  {
    SameUnder(kind, ps, qs, key);
    RemoveAllMeaning(kind, ht, ps, key);
    RemoveAllMeaning(kind, ht, qs, key);
    SameAllAgree(kind, ht, ps, qs, key);
    var a := Get(Loaded(kind, false, ht, ps), key);
    var b := Get(Loaded(kind, false, ht, qs), key);
    if Under(kind, ps, key) != [] && a.Some? {
      assert Belongs(kind, ht, ps, key, a.value) && Belongs(kind, ht, ps, key, b.value);
    }
  }

  lemma SameAllAgree(kind: KeyKind, ht: map<string, Pkg>, ps: seq<Pkg>, qs: seq<Pkg>, key: string)
    requires forall p :: p in Under(kind, ps, key) <==> p in Under(kind, qs, key)
    ensures AllAgree(kind, ht, ps, key) <==> AllAgree(kind, ht, qs, key)
    ensures forall p :: Belongs(kind, ht, ps, key, p) <==> Belongs(kind, ht, qs, key, p)
  {
    if AllAgree(kind, ht, ps, key) {
      AllAgreeFollows(kind, ht, ps, qs, key);
    }
    if AllAgree(kind, ht, qs, key) {
      AllAgreeFollows(kind, ht, qs, ps, key);
    }
  }

  lemma AllAgreeFollows(kind: KeyKind, ht: map<string, Pkg>, ps: seq<Pkg>, qs: seq<Pkg>, key: string)
    requires forall p :: p in Under(kind, ps, key) <==> p in Under(kind, qs, key)
    requires AllAgree(kind, ht, ps, key)
    ensures AllAgree(kind, ht, qs, key)
  {
    forall p | Belongs(kind, ht, qs, key, p)
      ensures Belongs(kind, ht, ps, key, p)
    {
    }
  }

  lemma SameUnder(kind: KeyKind, ps: seq<Pkg>, qs: seq<Pkg>, key: string)
    requires multiset(ps) == multiset(qs)
    ensures forall p :: p in Under(kind, ps, key) <==> p in Under(kind, qs, key)
    ensures Under(kind, ps, key) == [] <==> Under(kind, qs, key) == []
  {
    UnderMembers(kind, ps, key);
    UnderMembers(kind, qs, key);
    forall p
      ensures p in ps <==> p in qs
    {
      assert p in ps <==> p in multiset(ps);
      assert p in qs <==> p in multiset(qs);
    }
    HeadIsMember(Under(kind, ps, key));
    HeadIsMember(Under(kind, qs, key));
  }

  /** KEEPFIRST: earlier entries are never replaced or dropped, and every other key that is parsed is taken
      over with the first package iterated. */
  lemma KeepFirstMeaning(kind: KeyKind, ht: map<string, Pkg>, ps: seq<Pkg>, key: string)
    ensures Get(Loaded(kind, true, ht, ps), key)
      == if key in ht then Some(ht[key])
         else if Under(kind, ps, key) == [] then None
         else Some(Under(kind, ps, key)[0])
  {
    RekeyMeaning(kind, true, ht, ps, key);
  }

  /** Every entry of the table stands under its package's key. */
  ghost predicate AllUnderKey(kind: KeyKind, ht: map<string, Pkg>) {
    forall key :: key in ht ==> IsKey(kind, ht[key], key)
  }

  lemma LoadedUnderKey(kind: KeyKind, keepFirst: bool, ht: map<string, Pkg>, ps: seq<Pkg>)
    requires AllUnderKey(kind, ht)
    ensures AllUnderKey(kind, Loaded(kind, keepFirst, ht, ps))
  {
    var after := Loaded(kind, keepFirst, ht, ps);
    forall key | key in after
      ensures IsKey(kind, after[key], key)
    {
      RekeyMeaning(kind, keepFirst, ht, ps, key);
      if key !in ht {
        UnderMembers(kind, ps, key);
        HeadIsMember(Under(kind, ps, key));
        KeyOfIsKey(kind, after[key], key);
      }
    }
  }

  // ---------------------------------------------------------------- a whole load, from the listing to the table

  /** The walk of the table of parsed packages: each of them once, in any order. */
  ghost predicate Walks(ht: map<string, Entry>, ps: seq<Pkg>) {
    && (forall p :: p in ps <==> p.pkgId in ht && ht[p.pkgId].pkg == p)
    && (forall i, j :: 0 <= i < j < |ps| ==> ps[i].pkgId != ps[j].pkgId)
  }

  /** `p` is the first package of its id in the listing, and all of that id agree on mtime and size. */
  ghost predicate IsTaken(pkglist: Option<set<string>>, listed: seq<Pkg>, p: Pkg) {
    var same := WithId(Considered(pkglist, listed), p.pkgId);
    same != [] && same[0] == p && Uniform(same)
  }

  /** A taken package under the key. */
  ghost predicate IsTakenUnder(kind: KeyKind, pkglist: Option<set<string>>, listed: seq<Pkg>, key: string, p: Pkg) {
    IsTaken(pkglist, listed, p) && IsKey(kind, p, key)
  }

  /** The only taken package under the key. */
  ghost predicate IsOnlyTaken(kind: KeyKind, pkglist: Option<set<string>>, listed: seq<Pkg>, key: string, p: Pkg) {
    && IsTakenUnder(kind, pkglist, listed, key, p)
    && forall q :: IsTakenUnder(kind, pkglist, listed, key, q) ==> q == p
  }

  lemma WalkedAreTaken(pkglist: Option<set<string>>, listed: seq<Pkg>, ps: seq<Pkg>, p: Pkg)
    requires Walks(ParseAll(pkglist, listed).ht, ps)
    ensures p in ps <==> IsTaken(pkglist, listed, p)
  {
    OnlyConsideredCount(pkglist, listed);
    ParsingMeaning(Considered(pkglist, listed), p.pkgId);
  }

  lemma UnderAreTaken(kind: KeyKind, pkglist: Option<set<string>>, listed: seq<Pkg>, ps: seq<Pkg>, key: string, p: Pkg)
    requires Walks(ParseAll(pkglist, listed).ht, ps)
    ensures p in Under(kind, ps, key) <==> IsTakenUnder(kind, pkglist, listed, key, p)
  {
    UnderMembers(kind, ps, key);
    WalkedAreTaken(pkglist, listed, ps, p);
    KeyOfIsKey(kind, p, key);
  }

  /** REMOVEALL on a key that an earlier load has filled: the earlier entry stays iff every taken package under
      the key agrees with it. */
  lemma LoadKeepsEarlierIff(kind: KeyKind, pkglist: Option<set<string>>, listed: seq<Pkg>, ps: seq<Pkg>,
                            ht: map<string, Pkg>, key: string)
    requires Walks(ParseAll(pkglist, listed).ht, ps) && key in ht
    ensures var after := Loaded(kind, false, ht, ps);
      && (key in after <==> forall p :: IsTakenUnder(kind, pkglist, listed, key, p) ==>
           && p.timeFile == ht[key].timeFile
           && p.sizePackage == ht[key].sizePackage
           && p.pkgId == ht[key].pkgId
           && GetFilename(p.href) == GetFilename(ht[key].href))
      && (key in after ==> after[key] == ht[key])
  {
    var under := Under(kind, ps, key);
    RemoveAllMeaning(kind, ht, ps, key);
    forall p
      ensures p in under <==> IsTakenUnder(kind, pkglist, listed, key, p)
    {
      UnderAreTaken(kind, pkglist, listed, ps, key, p);
    }
    AgreeWithOne(kind, ht, ps, key, ht[key]);
    HeadIsMember(under);
  }

  /** REMOVEALL on a new key: it is filled iff exactly one taken package has it, and with that package. */
  lemma LoadTakesOnlyIff(kind: KeyKind, pkglist: Option<set<string>>, listed: seq<Pkg>, ps: seq<Pkg>,
                         ht: map<string, Pkg>, key: string)
    requires Walks(ParseAll(pkglist, listed).ht, ps) && key !in ht
    ensures var after := Loaded(kind, false, ht, ps);
      && (key in after <==> exists p :: IsOnlyTaken(kind, pkglist, listed, key, p))
      && (key in after ==> IsOnlyTaken(kind, pkglist, listed, key, after[key]))
  {
    var under := Under(kind, ps, key);
    var after := Loaded(kind, false, ht, ps);
    RemoveAllMeaning(kind, ht, ps, key);
    forall p
      ensures p in under <==> IsTakenUnder(kind, pkglist, listed, key, p)
    {
      UnderAreTaken(kind, pkglist, listed, ps, key, p);
    }
    HeadIsMember(under);
    if key in after {
      AgreeingIsOnly(kind, pkglist, listed, ps, ht, key, after[key]);
    }
    if p :| IsOnlyTaken(kind, pkglist, listed, key, p) {
      OnlyAgrees(kind, ht, ps, key, p);
    }
  }

  /** Taken packages that agree have the same id, and so are the same. */
  lemma AgreeingIsOnly(kind: KeyKind, pkglist: Option<set<string>>, listed: seq<Pkg>, ps: seq<Pkg>,
                       ht: map<string, Pkg>, key: string, p: Pkg)
    requires forall q :: q in Under(kind, ps, key) <==> IsTakenUnder(kind, pkglist, listed, key, q)
    requires AllAgree(kind, ht, ps, key) && p in Under(kind, ps, key)
    ensures IsOnlyTaken(kind, pkglist, listed, key, p)
  {
    forall q | IsTakenUnder(kind, pkglist, listed, key, q)
      ensures q == p
    {
      assert Belongs(kind, ht, ps, key, p) && Belongs(kind, ht, ps, key, q);
      assert Agree(p, q);
    }
  }

  lemma OnlyAgrees(kind: KeyKind, ht: map<string, Pkg>, ps: seq<Pkg>, key: string, p: Pkg)
    requires key !in ht && forall q :: q in Under(kind, ps, key) ==> q == p
    ensures AllAgree(kind, ht, ps, key)
  {
    forall q | Belongs(kind, ht, ps, key, q)
      ensures q == p
    {
    }
  }

  /** Under REMOVEALL the table after a load does not depend on the walk at all. */
  lemma LoadIsDetermined(kind: KeyKind, pkglist: Option<set<string>>, listed: seq<Pkg>, ps: seq<Pkg>, qs: seq<Pkg>,
                         ht: map<string, Pkg>)
    requires Walks(ParseAll(pkglist, listed).ht, ps) && Walks(ParseAll(pkglist, listed).ht, qs)
    ensures Loaded(kind, false, ht, ps) == Loaded(kind, false, ht, qs)
  {
    var a, b := Loaded(kind, false, ht, ps), Loaded(kind, false, ht, qs);
    forall key
      ensures Get(a, key) == Get(b, key)
    {
      if key in ht {
        LoadKeepsEarlierIff(kind, pkglist, listed, ps, ht, key);
        LoadKeepsEarlierIff(kind, pkglist, listed, qs, ht, key);
      } else {
        LoadTakesOnlyIff(kind, pkglist, listed, ps, ht, key);
        LoadTakesOnlyIff(kind, pkglist, listed, qs, ht, key);
      }
    }
    SameEntries(a, b);
  }

  lemma SameEntries(a: map<string, Pkg>, b: map<string, Pkg>)
    requires forall key :: Get(a, key) == Get(b, key)
    ensures a == b
  {
    assert forall key :: (key in a <==> Get(a, key).Some?) && (key in b <==> Get(b, key).Some?);
    forall key | key in a
      ensures key in b && a[key] == b[key]
    {
      assert Get(a, key) == Get(b, key);
    }
    assert a.Keys == b.Keys;
  }

  /** KEEPFIRST from the listing: an earlier entry stays, and every other key is filled iff a taken package has
      it, with one of those. */
  lemma LoadKeepsFirst(kind: KeyKind, pkglist: Option<set<string>>, listed: seq<Pkg>, ps: seq<Pkg>,
                       ht: map<string, Pkg>, key: string)
    requires Walks(ParseAll(pkglist, listed).ht, ps)
    ensures var after := Loaded(kind, true, ht, ps);
      && (key in ht ==> key in after && after[key] == ht[key])
      && (key !in ht ==>
           && (key in after <==> exists p :: IsTakenUnder(kind, pkglist, listed, key, p))
           && (key in after ==> IsTakenUnder(kind, pkglist, listed, key, after[key])))
  {
    var under := Under(kind, ps, key);
    KeepFirstMeaning(kind, ht, ps, key);
    forall p
      ensures p in under <==> IsTakenUnder(kind, pkglist, listed, key, p)
    {
      UnderAreTaken(kind, pkglist, listed, ps, key, p);
    }
    HeadIsMember(under);
  }

  // ---------------------------------------------------------------- in place

  class CbData {
    var ht: map<string, Entry>
    var ignoredPkgIds: set<string>
    var pkgKey: nat
    var loadedFil: set<string>
    var loadedOth: set<string>
    const pkglist: Option<set<string>>

    function View(): Parsed
      reads this
    {
      Parsed(ht, ignoredPkgIds, pkgKey)
    }

    constructor (pkglist: Option<set<string>>)
      ensures this.pkglist == pkglist && View() == ParseAll(pkglist, [])
      ensures loadedFil == {} && loadedOth == {}
    {
      loadedFil, loadedOth := {}, {};
      ht, ignoredPkgIds, pkgKey, this.pkglist := map[], {}, 0, pkglist;
    }

    /** primary_pkgcb, called by the parser for each package. */
    method PrimaryPkgcb(p: Pkg)
      modifies this`ht, this`ignoredPkgIds, this`pkgKey
      ensures View() == PrimaryPkg(pkglist, old(View()), p)
    {
      var storePkg := true;
      var basename := GetFilename(p.href);
      if pkglist.Some? {
        storePkg := basename in pkglist.value;
      }
      if storePkg && p.pkgId in ignoredPkgIds {
        storePkg := false;
      }
      if !storePkg {
        return;
      }
      if p.pkgId !in ht {
        pkgKey := pkgKey + 1;
        ht := ht[p.pkgId := Entry(p, pkgKey)];
      } else {
        var epkg := ht[p.pkgId].pkg;
        if !(epkg.timeFile == p.timeFile && epkg.sizePackage == p.sizePackage && GetFilename(p.href) == basename) {
          ht := ht - {p.pkgId};
          ignoredPkgIds := ignoredPkgIds + {p.pkgId};
        }
      }
    }

    /** newpkgcb, while filelists.xml or other.xml is parsed: whether there is a package to attach to. */
    method NewPkgcb(stage: Stage, id: string) returns (attach: bool)
      modifies this`loadedFil, this`loadedOth
      ensures stage.Filelists? ==>
        (attach, loadedFil) == NewPkg(ht.Keys, old(loadedFil), id) && loadedOth == old(loadedOth)
      ensures stage.Other? ==>
        (attach, loadedOth) == NewPkg(ht.Keys, old(loadedOth), id) && loadedFil == old(loadedFil)
    {
      attach := id in ht;
      if attach && stage.Filelists? {
        if id in loadedFil {
          attach := false;
        } else {
          loadedFil := loadedFil + {id};
        }
      }
      if attach && stage.Other? {
        if id in loadedOth {
          attach := false;
        } else {
          loadedOth := loadedOth + {id};
        }
      }
    }
  }

  /** Which file is being parsed. */
  datatype Stage = Filelists | Other

  class Metadata {
    var ht: map<string, Pkg>
    const key: KeyKind
    const keepFirst: bool

    constructor (key: KeyKind, keepFirst: bool)
      ensures AllUnderKey(key, ht)
      ensures ht == map[] && this.key == key && this.keepFirst == keepFirst
    {
      ht, this.key, this.keepFirst := map[], key, keepFirst;
    }

    /** The two loops of cr_metadata_load_xml over the parsed packages, in iteration order, and over the keys
        to be ignored. */
    method LoadXml(parsed: seq<Pkg>)
      modifies this
      ensures ht == Loaded(key, keepFirst, old(ht), parsed)
      ensures AllUnderKey(key, old(ht)) ==> AllUnderKey(key, ht)
    {
      ghost var before := ht;
      var ignoredKeys: set<string> := {};
      for i := 0 to |parsed|
        invariant (ht, ignoredKeys) == RekeyAll(key, keepFirst, old(ht), parsed[..i])
      {
        assert parsed[..i + 1][..i] == parsed[..i];
        var newKey := KeyOf(key, parsed[i]);
        if newKey in ht {
          if !keepFirst && !Agree(parsed[i], ht[newKey]) {
            ignoredKeys := ignoredKeys + {newKey};
          }
        } else {
          ht := ht[newKey := parsed[i]];
        }
      }
      assert parsed[..|parsed|] == parsed;
      ghost var all, ignored := ht, ignoredKeys;
      while ignoredKeys != {}
        invariant ignoredKeys <= ignored
        invariant ht == all - (ignored - ignoredKeys)
        decreases ignoredKeys
      {
        var k :| k in ignoredKeys;
        ht := ht - {k};
        ignoredKeys := ignoredKeys - {k};
      }
      if AllUnderKey(key, before) {
        LoadedUnderKey(key, keepFirst, before, parsed);
      }
    }
  }
}
