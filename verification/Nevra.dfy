/** Splitting and printing of package names: name, epoch, version, release, architecture
    (src/misc.c and src/package.c). */
module Nevra {
  import opened Basics

  datatype Nevr = Nevr(name: string, epoch: Option<string>, version: Option<string>, release: Option<string>)

  datatype Nevra = Nevra(
    name: string,
    epoch: Option<string>,
    version: Option<string>,
    release: Option<string>,
    arch: Option<string>)

  /** Position of the first `c`, or the length. */
  function IndexOf(s: string, c: char): (i: nat)
    ensures i <= |s| && c !in s[..i]
    ensures i < |s| ==> s[i] == c
    ensures i < |s| <==> c in s
  {
    if s == [] || s[0] == c then 0 else 1 + IndexOf(s[1..], c)
  }

  /** Position of the last `c`, or -1. */
  function LastIndexOf(s: string, c: char): (i: int)
    ensures -1 <= i < |s|
    ensures i >= 0 ==> s[i] == c && c !in s[i + 1..]
    ensures i >= 0 <==> c in s
  {
    if s == [] then -1
    else if s[|s| - 1] == c then |s| - 1
    else assert s == s[..|s| - 1] + [s[|s| - 1]]; LastIndexOf(s[..|s| - 1], c)
  }

  function HasSuffix(s: string, suffix: string): bool {
    |s| >= |suffix| && s[|s| - |suffix|..] == suffix
  }

  /** What follows the last `c`, if there is one. */
  function AfterLast(s: string, c: char): Option<string> {
    var i := LastIndexOf(s, c);
    if i < 0 then None else Some(s[i + 1..])
  }

  /** What precedes the last `c`; everything if there is none. */
  function BeforeLast(s: string, c: char): string {
    var i := LastIndexOf(s, c);
    if i < 0 then s else s[..i]
  }

  /** cr_get_filename */
  function GetFilename(path: string): string {
    if '/' in path then AfterLast(path, '/').value else path
  }

  /** cr_get_cleaned_href */
  function GetCleanedHref(path: string): string {
    if |path| >= 2 && path[..2] == "./" then GetCleanedHref(path[2..]) else path
  }

  // ---------------------------------------------------------------- the parsers

  /** The first ':' divides N-V-R from the epoch, on either side; in N-E:V-R nothing is divided yet. */
  function DivideEpoch(s: string): (string, Option<string>) {
    var i := IndexOf(s, ':');
    if i == |s| then (s, None)
    else if '-' !in s[i + 1..] then (s[..i], Some(s[i + 1..]))
    else if '-' !in s[..i] then (s[i + 1..], Some(s[..i]))
    else (s, None)
  }

  /** cr_str_to_nevr: N-V-R:E, E:N-V-R, N-E:V-R or N-V-R */
  function StrToNevr(s: string): Option<Nevr> {
    if s == [] then None
    else
      var (nvr, epoch) := DivideEpoch(s);
      var release := AfterLast(nvr, '-');
      var nv := BeforeLast(nvr, '-');
      var version := AfterLast(nv, '-');
      var name := BeforeLast(nv, '-');
      if epoch.None? && version.Some? && ':' in version.value then
        var i := IndexOf(version.value, ':');
        Some(Nevr(name, Some(version.value[..i]), Some(version.value[i + 1..]), release))
      else
        Some(Nevr(name, epoch, version, release))
  }

  /** An epoch at the very end, as in N-V-R.A:E. */
  function StripEpoch(s: string): (string, Option<string>) {
    var i := IndexOf(s, ':');
    if i < |s| && '-' !in s[i + 1..] && '.' !in s[i + 1..] then (s[..i], Some(s[i + 1..])) else (s, None)
  }

  /** cr_str_to_nevra */
  function StrToNevra(s: string): Option<Nevra> {
    var (str, epoch) := StripEpoch(s);
    var arch := AfterLast(str, '.');
    if arch.Some? && '-' in arch.value then None
    else
      var nevr := StrToNevr(BeforeLast(str, '.'));
      if nevr.None? then None
      else
        var x := nevr.value;
        Some(Nevra(x.name, if epoch.Some? then epoch else x.epoch, x.version, x.release, arch))
  }

  /** N-V-R.A, N-V-R.A.rpm or N-V-R.A.rpm:E */
  function SplitBasename(base: string): Option<Nevra> {
    var i := IndexOf(base, ':');
    var withEpoch := i < |base| && HasSuffix(base[..i], ".rpm");
    var str := if withEpoch then base[..i] else base;
    var nevra := StrToNevra(if HasSuffix(str, ".rpm") then str[..|str| - 4] else str);
    if withEpoch && nevra.Some? then Some(nevra.value.(epoch := Some(base[i + 1..]))) else nevra
  }

  /** cr_split_rpm_filename */
  function SplitRpmFilename(filename: string): Option<Nevra> {
    SplitBasename(GetFilename(filename))
  }

  // ---------------------------------------------------------------- the scanning loops

  /** cr_get_filename as it walks the path. */
  method ScanFilename(path: string) returns (filename: string)
    ensures filename == GetFilename(path)
    ensures FollowsLastSlash(path, filename)
  {
    filename := path;
    var x := 0;
    ghost var last := -1;
    while x < |path|
      invariant -1 <= last < x <= |path| && filename == path[last + 1..]
      invariant last >= 0 ==> path[last] == '/'
      invariant forall j :: last < j < x ==> path[j] != '/'
    {
      if path[x] == '/' {
        filename := path[x + 1..];
        last := x;
      }
      x := x + 1;
    }
    FilenameAt(path, last);
  }

  /** No '/' is left, and it is the whole path or begins right behind a '/'. */
  ghost predicate FollowsLastSlash(path: string, filename: string) {
    '/' !in filename && (filename == path || exists k :: 0 <= k < |path| && path[k] == '/' && filename == path[k + 1..])
  }

  lemma FilenameAt(path: string, last: int)
    requires -1 <= last < |path|
    requires last >= 0 ==> path[last] == '/'
    requires forall j :: last < j < |path| ==> path[j] != '/'
    ensures GetFilename(path) == path[last + 1..]
    ensures FollowsLastSlash(path, path[last + 1..])
  {
    LastIndexIs(path, '/', last);
  }

  /** One backward loop of cr_str_to_nevr: what precedes the last '-' and what follows it. */
  method ScanLastDash(s: string) returns (before: string, after: Option<string>)
    ensures before == BeforeLast(s, '-') && after == AfterLast(s, '-')
  {
    before, after := s, None;
    var i := |s| - 1;
    while i >= 0
      invariant -1 <= i < |s|
      invariant before == s && after == None
      invariant forall j :: i < j < |s| ==> s[j] != '-'
    {
      if s[i] == '-' {
        after := Some(s[i + 1..]);
        before := s[..i];
        break;
      }
      i := i - 1;
    }
    LastIndexIs(s, '-', i);
  }

  /** cr_str_to_nevr */
  method ParseNevr(s: string) returns (nevr: Option<Nevr>)
    ensures nevr == StrToNevr(s)
  {
    if s == [] {
      return None;
    }
    var (nvr, epoch) := DivideEpoch(s);
    var rest, release := ScanLastDash(nvr);
    var name, version := ScanLastDash(rest);
    NevrFromSplits(s, nvr, epoch, rest, version);
    if epoch.None? && version.Some? && ':' in version.value {
      var colon := IndexOf(version.value, ':');
      nevr := Some(Nevr(name, Some(version.value[..colon]), Some(version.value[colon + 1..]), release));
    } else {
      nevr := Some(Nevr(name, epoch, version, release));
    }
  }

  lemma NevrFromSplits(s: string, nvr: string, epoch: Option<string>, rest: string, version: Option<string>)
    requires s != "" && DivideEpoch(s) == (nvr, epoch) && rest == BeforeLast(nvr, '-') && version == AfterLast(rest, '-')
    ensures StrToNevr(s) == Some(
      if epoch.None? && version.Some? && ':' in version.value then
        var colon := IndexOf(version.value, ':');
        Nevr(BeforeLast(rest, '-'), Some(version.value[..colon]), Some(version.value[colon + 1..]), AfterLast(nvr, '-'))
      else Nevr(BeforeLast(rest, '-'), epoch, version, AfterLast(nvr, '-')))
  {
  }

  // ---------------------------------------------------------------- splitting known strings

  lemma {:induction false} LastIndexIs(s: string, c: char, i: int)
    requires -1 <= i < |s|
    requires i >= 0 ==> s[i] == c
    requires forall j :: i < j < |s| ==> s[j] != c
    ensures LastIndexOf(s, c) == i
  {
    if s != [] && s[|s| - 1] != c {
      LastIndexIs(s[..|s| - 1], c, i);
    }
  }

  lemma {:induction false} FirstIndexAtMost(s: string, c: char, k: nat)
    requires k < |s| && s[k] == c
    ensures IndexOf(s, c) <= k
  {
    if s[0] != c {
      FirstIndexAtMost(s[1..], c, k - 1);
    }
  }

  lemma FirstSplit(a: string, c: char, b: string)
    requires c !in a
    ensures var s := a + [c] + b; IndexOf(s, c) == |a| && s[..|a|] == a && s[|a| + 1..] == b
  {
    FirstAt(a, c, b);
  }

  lemma {:induction false} FirstAt(a: string, c: char, b: string)
    requires c !in a
    ensures IndexOf(a + [c] + b, c) == |a|
  {
    if a != [] {
      FirstAt(a[1..], c, b);
      assert (a + [c] + b)[1..] == a[1..] + [c] + b;
    }
  }

  lemma LastSplit(a: string, c: char, b: string)
    requires c !in b
    ensures var s := a + [c] + b; AfterLast(s, c) == Some(b) && BeforeLast(s, c) == a
  {
    LastIndexIs(a + [c] + b, c, |a|);
  }

  lemma Reassemble(s: string, c: char)
    requires AfterLast(s, c).Some?
    ensures s == BeforeLast(s, c) + [c] + AfterLast(s, c).value
    ensures c !in AfterLast(s, c).value
  {
  }

  lemma NotInAppend(a: string, b: string, c: char)
    ensures c !in a && c !in b <==> c !in a + b
  {
    if c !in a + b {
      assert forall i :: 0 <= i < |a| ==> a[i] == (a + b)[i];
      assert forall i :: 0 <= i < |b| ==> b[i] == (a + b)[|a| + i];
    }
  }

  lemma {:induction false} IndexOfInPrefix(a: string, rest: string, c: char)
    requires c in a
    ensures IndexOf(a + rest, c) == IndexOf(a, c)
  {
    if a[0] != c {
      IndexOfInPrefix(a[1..], rest, c);
      assert (a + rest)[1..] == a[1..] + rest;
    }
  }

  lemma IndexOfAppend(a: string, rest: string, c: char)
    requires c in a
    ensures IndexOf(a + rest, c) == IndexOf(a, c)
    ensures (a + rest)[..IndexOf(a, c)] == a[..IndexOf(a, c)]
  {
    IndexOfInPrefix(a, rest, c);
  }

  lemma InSuffix(a: string, b: string, c: char)
    requires c in b
    ensures c in a + b
  {
    var i :| 0 <= i < |b| && b[i] == c;
    assert (a + b)[|a| + i] == c;
  }

  /** What cr_str_to_nevr makes of a string once it is divided and split. */
  lemma NevrFromParts(s: string, nvr: string, epoch: Option<string>, n: string, v: string, r: string)
    requires s != [] && DivideEpoch(s) == (nvr, epoch)
    requires AfterLast(nvr, '-') == Some(r)
    requires AfterLast(BeforeLast(nvr, '-'), '-') == Some(v) && BeforeLast(BeforeLast(nvr, '-'), '-') == n
    ensures epoch.Some? || ':' !in v ==> StrToNevr(s) == Some(Nevr(n, epoch, Some(v), Some(r)))
    ensures epoch.None? && ':' in v ==>
      StrToNevr(s) == Some(Nevr(n, Some(v[..IndexOf(v, ':')]), Some(v[IndexOf(v, ':') + 1..]), Some(r)))
  {
  }

  /** N-V-R */
  lemma SplitNvr(n: string, v: string, r: string)
    requires '-' !in v && '-' !in r
    ensures var nvr := n + "-" + v + "-" + r;
      && AfterLast(nvr, '-') == Some(r)
      && AfterLast(BeforeLast(nvr, '-'), '-') == Some(v)
      && BeforeLast(BeforeLast(nvr, '-'), '-') == n
  {
    LastSplit(n + "-" + v, '-', r);
    LastSplit(n, '-', v);
  }

  /** Adding the architecture to a string that parses as a NEVR. */
  lemma AttachArch(nevr: string, a: string)
    requires '.' !in a && '-' !in a && StrToNevr(nevr).Some?
    requires StripEpoch(nevr + "." + a) == (nevr + "." + a, None)
    ensures var x := StrToNevr(nevr).value;
      StrToNevra(nevr + "." + a) == Some(Nevra(x.name, x.epoch, x.version, x.release, Some(a)))
  {
    LastSplit(nevr, '.', a);
  }

  // ---------------------------------------------------------------- what any string parses to

  /** `s` is `before`, a `c`, and an `after` without any `c`; or has no `c` at all. */
  predicate SplitsAtLast(s: string, c: char, before: string, after: Option<string>) {
    match after
    case None => c !in s && before == s
    case Some(a) => c !in a && s == before + [c] + a
  }

  /** Splitting at the last `c`. */
  lemma SplitLastMeaning(s: string, c: char)
    ensures SplitsAtLast(s, c, BeforeLast(s, c), AfterLast(s, c))
  {
    if AfterLast(s, c).Some? {
      Reassemble(s, c);
    }
  }

  /** How a ':' divides a string: the epoch is what has no '-', behind the first ':' rather than before it; with a
      '-' on both sides nothing is divided yet. */
  ghost predicate Divides(s: string, nvr: string, epoch: Option<string>) {
    match epoch
    case Some(e) =>
      || (s == nvr + ":" + e && ':' !in nvr && '-' !in e)
      || (s == e + ":" + nvr && ':' !in e && '-' !in e && '-' in nvr)
    case None =>
      nvr == s && forall a, b :: s == a + ":" + b && ':' !in a ==> '-' in a && '-' in b
  }

  lemma DivideMeaning(s: string)
    ensures Divides(s, DivideEpoch(s).0, DivideEpoch(s).1)
  {
    var i := IndexOf(s, ':');
    if i < |s| {
      assert s == s[..i] + ":" + s[i + 1..];
    }
    forall a, b | s == a + ":" + b && ':' !in a
      ensures i < |s| && a == s[..i] && b == s[i + 1..]
    {
      FirstSplit(a, ':', b);
    }
  }

  /** Whatever the string: only the empty one does not parse. Of any other the epoch is divided off, what is left
      is split at its last two '-', and with no epoch yet one is taken from before the first ':' of the version. */
  lemma StrToNevrMeaning(s: string)
    ensures StrToNevr(s).None? <==> s == ""
    ensures s != "" ==> exists nvr, epoch, rest, version ::
      NevrIsSplit(s, nvr, epoch, rest, version, StrToNevr(s).value)
  {
    if s != "" {
      var nvr, epoch := DivideEpoch(s).0, DivideEpoch(s).1;
      var rest := BeforeLast(nvr, '-');
      var version := AfterLast(rest, '-');
      DivideMeaning(s);
      SplitLastMeaning(nvr, '-');
      SplitLastMeaning(rest, '-');
      VersionMeaning(s, nvr, epoch, rest, version);
      assert NevrIsSplit(s, nvr, epoch, rest, version, StrToNevr(s).value);
    }
  }

  ghost predicate NevrIsSplit(s: string, nvr: string, epoch: Option<string>, rest: string, version: Option<string>,
                              x: Nevr)
  {
    && Divides(s, nvr, epoch)
    && SplitsAtLast(nvr, '-', rest, x.release)
    && SplitsAtLast(rest, '-', x.name, version)
    && (if epoch.None? && version.Some? && ':' in version.value then
          && x.epoch.Some? && ':' !in x.epoch.value
          && x.version.Some? && version.value == x.epoch.value + ":" + x.version.value
        else x.epoch == epoch && x.version == version)
  }

  lemma AtFirst(s: string, c: char)
    requires c in s
    ensures c !in s[..IndexOf(s, c)] && s == s[..IndexOf(s, c)] + [c] + s[IndexOf(s, c) + 1..]
  {
  }

  lemma VersionMeaning(s: string, nvr: string, epoch: Option<string>, rest: string, version: Option<string>)
    requires s != "" && DivideEpoch(s) == (nvr, epoch)
    requires rest == BeforeLast(nvr, '-') && version == AfterLast(rest, '-')
    ensures var x := StrToNevr(s).value;
      && x.name == BeforeLast(rest, '-') && x.release == AfterLast(nvr, '-')
      && (if epoch.None? && version.Some? && ':' in version.value then
            && x.epoch.Some? && ':' !in x.epoch.value
            && x.version.Some? && version.value == x.epoch.value + ":" + x.version.value
          else x.epoch == epoch && x.version == version)
  {
    NevrFromSplits(s, nvr, epoch, rest, version);
    if version.Some? && ':' in version.value {
      AtFirst(version.value, ':');
    }
  }

  /** How an epoch at the very end is taken off: behind the first ':', without '-' and '.'. */
  ghost predicate Strips(s: string, str: string, epoch: Option<string>) {
    match epoch
    case Some(e) => s == str + ":" + e && ':' !in str && '-' !in e && '.' !in e
    case None => str == s && forall a, b :: s == a + ":" + b && ':' !in a ==> '-' in b || '.' in b
  }

  lemma StripMeaning(s: string)
    ensures Strips(s, StripEpoch(s).0, StripEpoch(s).1)
  {
    var i := IndexOf(s, ':');
    if i < |s| {
      assert s == s[..i] + ":" + s[i + 1..];
    }
    forall a, b | s == a + ":" + b && ':' !in a
      ensures i < |s| && a == s[..i] && b == s[i + 1..]
    {
      FirstSplit(a, ':', b);
    }
  }

  /** Whatever the string: an epoch at the end is taken off, the architecture is what follows the last '.', and the
      rest is parsed as a NEVR, whose own epoch counts if none was taken off. It fails when the architecture holds
      a '-' or nothing is left of the rest. */
  lemma StrToNevraMeaning(s: string)
    ensures exists str, epoch, nevr, arch :: NevraIsSplit(s, str, epoch, nevr, arch, StrToNevra(s))
  {
    var str, epoch := StripEpoch(s).0, StripEpoch(s).1;
    StripMeaning(s);
    SplitLastMeaning(str, '.');
    assert NevraIsSplit(s, str, epoch, BeforeLast(str, '.'), AfterLast(str, '.'), StrToNevra(s));
  }

  ghost predicate NevraIsSplit(s: string, str: string, epoch: Option<string>, nevr: string, arch: Option<string>,
                               result: Option<Nevra>)
  {
    && Strips(s, str, epoch)
    && SplitsAtLast(str, '.', nevr, arch)
    && (result.None? <==> (arch.Some? && '-' in arch.value) || StrToNevr(nevr).None?)
    && (result.Some? ==>
         var x := StrToNevr(nevr).value;
         result.value == Nevra(x.name, if epoch.Some? then epoch else x.epoch, x.version, x.release, arch))
  }

  // ---------------------------------------------------------------- the printer and the round trips

  /** cr_package_nevra; a missing or empty epoch is printed as "0" */
  function PackageNevra(name: string, epoch: Option<string>, version: string, release: string, arch: string): string {
    var e := if epoch.Some? && epoch.value != [] then epoch.value else "0";
    name + "-" + e + ":" + version + "-" + release + "." + arch
  }

  /** In x:rest with a '-' before the first ':' of x (or anywhere in x if it has none) and a '-' in rest, both
      sides of the first ':' contain a '-'. */
  lemma FirstColon(x: string, rest: string)
    requires '-' in rest
    requires '-' in x[..IndexOf(x, ':')]
    ensures var s := x + ":" + rest;
      var i := IndexOf(s, ':');
      i < |s| && '-' in s[..i] && '-' in s[i + 1..]
  {
    var k := IndexOf(x, ':');
    if k < |x| {
      var tail := x[k + 1..] + ":" + rest;
      InSuffix(x[k + 1..] + ":", rest, '-');
      SplitAtFirst(x, k, rest);
      FirstSplit(x[..k], ':', tail);
    } else {
      FirstSplit(x, ':', rest);
      assert x[..k] == x;
    }
  }

  lemma SplitAtFirst(x: string, k: nat, rest: string)
    requires k < |x| && x[k] == ':'
    ensures x + ":" + rest == x[..k] + [':'] + (x[k + 1..] + ":" + rest)
  {
    assert x == x[..k] + [':'] + x[k + 1..];
  }

  predicate ColonAfterDash(n: string) {
    ':' in n ==> '-' in n[..IndexOf(n, ':')]
  }

  lemma ColonAfterDashAppend(n: string, e: string)
    requires ColonAfterDash(n) && ':' !in e
    ensures var x := n + "-" + e; '-' in x[..IndexOf(x, ':')]
  {
    var x := n + "-" + e;
    if ':' in n {
      IndexOfAppend(n, "-" + e, ':');
      Associative(n, "-", e);
    } else {
      assert IndexOf(x, ':') == |x|;
      assert x[..|x|] == x;
      assert x[|n|] == '-';
    }
  }

  lemma ParseNameEpochFirst(n: string, e: string, v: string, r: string)
    requires ColonAfterDash(n) && '-' !in e && ':' !in e && '-' !in v && '-' !in r
    ensures StrToNevr(n + "-" + e + ":" + v + "-" + r) == Some(Nevr(n, Some(e), Some(v), Some(r)))
  {
    var s := n + "-" + e + ":" + v + "-" + r;
    var ev := e + ":" + v;
    BothSidesDash(n, e, v, "-" + r);
    Associative(n + "-" + e + ":" + v, "-", r);
    NameEpochVersion(n, e, v);
    FirstSplit(e, ':', v);
    SplitNvr(n, ev, r);
    NevrFromParts(s, s, None, n, ev, r);
  }

  lemma NameEpochVersion(n: string, e: string, v: string)
    ensures n + "-" + e + ":" + v == n + "-" + (e + ":" + v)
  {
    Associative(n + "-", e, ":");
    Associative(n + "-", e + ":", v);
  }

  /** n-e:v followed by something with a '-'. */
  lemma BothSidesDash(n: string, e: string, v: string, rest: string)
    requires ColonAfterDash(n) && ':' !in e && '-' in rest
    ensures var s := n + "-" + e + ":" + v + rest;
      var i := IndexOf(s, ':');
      i < |s| && '-' in s[..i] && '-' in s[i + 1..]
  {
    ColonAfterDashAppend(n, e);
    InSuffix(v, rest, '-');
    FirstColon(n + "-" + e, v + rest);
    Associative(n + "-" + e + ":", v, rest);
  }

  /** N-E:V-R.A */
  lemma NameEpochFirst(n: string, e: string, v: string, r: string, a: string)
    requires ColonAfterDash(n) && '-' !in e && ':' !in e && '-' !in v && '-' !in r && '.' !in a && '-' !in a
    ensures StrToNevra(n + "-" + e + ":" + v + "-" + r + "." + a)
      == Some(Nevra(n, Some(e), Some(v), Some(r), Some(a)))
  {
    var nev := n + "-" + e + ":" + v;
    BothSidesDash(n, e, v, "-" + r + "." + a);
    Associative(nev, "-" + r + ".", a);
    Associative(nev, "-" + r, ".");
    Associative(nev, "-", r);
    ParseNameEpochFirst(n, e, v, r);
    AttachArch(nev + "-" + r, a);
  }

  lemma DividesEpochFirst(e: string, rest: string)
    requires '-' !in e && ':' !in e && '-' in rest
    ensures DivideEpoch(e + ":" + rest) == (rest, Some(e))
    ensures StripEpoch(e + ":" + rest) == (e + ":" + rest, None)
  {
    FirstSplit(e, ':', rest);
  }

  lemma ParseEpochFirst(e: string, n: string, v: string, r: string)
    requires '-' !in e && ':' !in e && '-' !in v && '-' !in r
    ensures StrToNevr(e + ":" + (n + "-" + v + "-" + r)) == Some(Nevr(n, Some(e), Some(v), Some(r)))
  {
    var nvr := n + "-" + v + "-" + r;
    assert nvr[|n|] == '-';
    DividesEpochFirst(e, nvr);
    SplitNvr(n, v, r);
    NevrFromParts(e + ":" + nvr, nvr, Some(e), n, v, r);
  }

  /** E:N-V-R.A */
  lemma EpochFirst(n: string, e: string, v: string, r: string, a: string)
    requires '-' !in e && ':' !in e && '-' !in v && '-' !in r && '.' !in a && '-' !in a
    ensures StrToNevra(e + ":" + (n + "-" + v + "-" + r) + "." + a)
      == Some(Nevra(n, Some(e), Some(v), Some(r), Some(a)))
  {
    var nvr := n + "-" + v + "-" + r;
    ParseEpochFirst(e, n, v, r);
    assert (nvr + "." + a)[|n|] == '-';
    DividesEpochFirst(e, nvr + "." + a);
    Associative(e + ":", nvr + ".", a);
    Associative(e + ":", nvr, ".");
    AttachArch(e + ":" + nvr, a);
  }

  lemma ParseEpochLast(n: string, e: string, v: string, r: string)
    requires ':' !in n && ':' !in v && ':' !in r && '-' !in e && '-' !in v && '-' !in r
    ensures StrToNevr(n + "-" + v + "-" + r + ":" + e) == Some(Nevr(n, Some(e), Some(v), Some(r)))
  {
    var nvr := n + "-" + v + "-" + r;
    FirstSplit(nvr, ':', e);
    SplitNvr(n, v, r);
    NevrFromParts(nvr + ":" + e, nvr, Some(e), n, v, r);
  }

  /** N-V-R:E.A */
  lemma EpochBeforeArch(n: string, e: string, v: string, r: string, a: string)
    requires ':' !in n && ':' !in v && ':' !in r
    requires '-' !in e && '-' !in v && '-' !in r && '.' !in a && '-' !in a
    ensures StrToNevra(n + "-" + v + "-" + r + ":" + e + "." + a)
      == Some(Nevra(n, Some(e), Some(v), Some(r), Some(a)))
  {
    var nvr := n + "-" + v + "-" + r;
    ParseEpochLast(n, e, v, r);
    FirstSplit(nvr, ':', e + "." + a);
    assert (e + "." + a)[|e|] == '.';
    Associative(nvr + ":", e + ".", a);
    Associative(nvr + ":", e, ".");
    AttachArch(nvr + ":" + e, a);
  }

  /** N-V-R.A:E */
  lemma EpochLast(n: string, e: string, v: string, r: string, a: string)
    requires ':' !in n && ':' !in v && ':' !in r && ':' !in a
    requires '-' !in e && '.' !in e && '-' !in v && '-' !in r && '.' !in a && '-' !in a
    ensures StrToNevra(n + "-" + v + "-" + r + "." + a + ":" + e)
      == Some(Nevra(n, Some(e), Some(v), Some(r), Some(a)))
  {
    var nvr := n + "-" + v + "-" + r;
    NoColonInNvr(n, v, r);
    NotInAppend(nvr, ".", ':');
    NotInAppend(nvr + ".", a, ':');
    FirstSplit(nvr + "." + a, ':', e);
    LastSplit(nvr, '.', a);
    ParsePlainNvr(n, v, r);
  }

  lemma NoColonInNvr(n: string, v: string, r: string)
    requires ':' !in n && ':' !in v && ':' !in r
    ensures ':' !in n + "-" + v + "-" + r
  {
    NotInAppend(n, "-", ':');
    NotInAppend(n + "-", v, ':');
    NotInAppend(n + "-" + v, "-", ':');
    NotInAppend(n + "-" + v + "-", r, ':');
  }

  /** N-V-R without an epoch */
  lemma ParsePlainNvr(n: string, v: string, r: string)
    requires ':' !in n && ':' !in v && ':' !in r && '-' !in v && '-' !in r
    ensures StrToNevr(n + "-" + v + "-" + r) == Some(Nevr(n, None, Some(v), Some(r)))
  {
    var nvr := n + "-" + v + "-" + r;
    NoColonInNvr(n, v, r);
    SplitNvr(n, v, r);
    NevrFromParts(nvr, nvr, None, n, v, r);
  }

  /** The four textual forms of one package parse to the same NEVRA. */
  lemma FourFormsAgree(n: string, e: string, v: string, r: string, a: string)
    requires ':' !in n && '-' !in v && ':' !in v && '-' !in r && ':' !in r
    requires '-' !in e && ':' !in e && '.' !in e
    requires '.' !in a && '-' !in a && ':' !in a
    ensures var nevra := Some(Nevra(n, Some(e), Some(v), Some(r), Some(a)));
      && StrToNevra(n + "-" + e + ":" + v + "-" + r + "." + a) == nevra
      && StrToNevra(e + ":" + (n + "-" + v + "-" + r) + "." + a) == nevra
      && StrToNevra(n + "-" + v + "-" + r + ":" + e + "." + a) == nevra
      && StrToNevra(n + "-" + v + "-" + r + "." + a + ":" + e) == nevra
  {
    NameEpochFirst(n, e, v, r, a);
    EpochFirst(n, e, v, r, a);
    EpochBeforeArch(n, e, v, r, a);
    EpochLast(n, e, v, r, a);
  }

  /** Which packages survive printing and parsing: a ':' in the name only after a '-', no '-' or ':' in the
      epoch, no '-' in version, release and architecture, no '.' in the architecture. */
  predicate Printable(n: string, e: string, v: string, r: string, a: string) {
    ColonAfterDash(n) && '-' !in e && ':' !in e && '-' !in v && '-' !in r && '.' !in a && '-' !in a
  }

  /** Parsing what `cr_package_nevra` prints gives back the package, a missing epoch read as "0", exactly
      when the package is printable. */
  lemma RoundTripIff(n: string, epoch: Option<string>, v: string, r: string, a: string)
    ensures var e := if epoch.Some? && epoch.value != [] then epoch.value else "0";
      StrToNevra(PackageNevra(n, epoch, v, r, a)) == Some(Nevra(n, Some(e), Some(v), Some(r), Some(a)))
      <==> Printable(n, e, v, r, a)
  {
    var e := if epoch.Some? && epoch.value != [] then epoch.value else "0";
    if StrToNevra(PackageNevra(n, epoch, v, r, a)) == Some(Nevra(n, Some(e), Some(v), Some(r), Some(a))) {
      ParsedIsPrintable(n, e, v, r, a);
    }
    if Printable(n, e, v, r, a) {
      NameEpochFirst(n, e, v, r, a);
    }
  }

  lemma ParsedIsPrintable(n: string, e: string, v: string, r: string, a: string)
    requires StrToNevra(n + "-" + e + ":" + v + "-" + r + "." + a)
      == Some(Nevra(n, Some(e), Some(v), Some(r), Some(a)))
    ensures Printable(n, e, v, r, a)
  {
    var nevr := n + "-" + e + ":" + v + "-" + r;
    DashAfterColon(n + "-" + e, v + ("-" + r + "." + a));
    InSuffix(v, "-" + r + "." + a, '-');
    Associative(n + "-" + e + ":", v, "-" + r + "." + a);
    Associative(n + "-" + e + ":" + v, "-" + r + ".", a);
    Associative(n + "-" + e + ":" + v, "-" + r, ".");
    Associative(n + "-" + e + ":" + v, "-", r);
    assert StripEpoch(nevr + "." + a) == (nevr + "." + a, None);
    Reassemble(nevr + "." + a, '.');
    LastSplit(nevr, '.', a);
    ParsedNevr(n, e, v, r);
  }

  lemma ParsedNevr(n: string, e: string, v: string, r: string)
    requires StrToNevr(n + "-" + e + ":" + v + "-" + r) == Some(Nevr(n, Some(e), Some(v), Some(r)))
    ensures ColonAfterDash(n) && '-' !in e && ':' !in e && '-' !in v && '-' !in r
  {
    var s := n + "-" + e + ":" + v + "-" + r;
    var i := IndexOf(s, ':');
    DashAfterColon(n + "-" + e, v + ("-" + r));
    Associative(n + "-" + e + ":", v, "-" + r);
    Associative(n + "-" + e + ":" + v, "-", r);
    if '-' !in s[..i] {
      SwappedParse(s, i, n, e, v, r);
      SwappedNeverMatches(n, e, v, r, i);
    } else {
      UndividedParse(s, n, e, v, r);
      DashBeforeColon(n, e, v, r);
    }
  }

  /** With no '-' before the first ':' the prefix is taken for the epoch. */
  lemma DividesSwapped(s: string, i: nat)
    requires i == IndexOf(s, ':') && i < |s| && '-' in s[i + 1..] && '-' !in s[..i]
    ensures DivideEpoch(s) == (s[i + 1..], Some(s[..i]))
  {
  }

  /** What a parsed string with a divided epoch is split into. */
  lemma PartsOf(s: string, nvr: string, n: string, e: string, v: string, r: string)
    requires StrToNevr(s) == Some(Nevr(n, Some(e), Some(v), Some(r)))
    requires DivideEpoch(s).0 == nvr && DivideEpoch(s).1.Some?
    ensures AfterLast(nvr, '-') == Some(r)
    ensures AfterLast(BeforeLast(nvr, '-'), '-') == Some(v) && BeforeLast(BeforeLast(nvr, '-'), '-') == n
  {
  }

  lemma PartsJoin(nvr: string, n: string, v: string, r: string)
    requires AfterLast(nvr, '-') == Some(r)
    requires AfterLast(BeforeLast(nvr, '-'), '-') == Some(v) && BeforeLast(BeforeLast(nvr, '-'), '-') == n
    ensures nvr == n + "-" + v + "-" + r
  {
    Reassemble(nvr, '-');
    Reassemble(BeforeLast(nvr, '-'), '-');
  }

  /** The parts found when the prefix before the first ':' is taken for the epoch. */
  lemma SwappedParse(s: string, i: nat, n: string, e: string, v: string, r: string)
    requires StrToNevr(s) == Some(Nevr(n, Some(e), Some(v), Some(r)))
    requires i == IndexOf(s, ':') && i < |s| && '-' in s[i + 1..] && '-' !in s[..i]
    ensures s[i + 1..] == n + "-" + v + "-" + r
  {
    DividesSwapped(s, i);
    PartsOf(s, s[i + 1..], n, e, v, r);
    PartsJoin(s[i + 1..], n, v, r);
  }

  /** The parts found when nothing is divided off. */
  lemma UndividedParse(s: string, n: string, e: string, v: string, r: string)
    requires StrToNevr(s) == Some(Nevr(n, Some(e), Some(v), Some(r)))
    requires DivideEpoch(s) == (s, None)
    ensures '-' !in r && '-' !in e && '-' !in v && ':' !in e
  {
    Reassemble(s, '-');
    var ev := AfterLast(BeforeLast(s, '-'), '-').value;
    Reassemble(BeforeLast(s, '-'), '-');
    var k := IndexOf(ev, ':');
    assert e == ev[..k] && v == ev[k + 1..];
  }

  lemma DashBeforeColon(n: string, e: string, v: string, r: string)
    requires var s := n + "-" + e + ":" + v + "-" + r; '-' in s[..IndexOf(s, ':')]
    ensures ColonAfterDash(n)
  {
    if ':' in n {
      Associative(n + "-" + e + ":" + v, "-", r);
      Associative(n + "-" + e + ":", v, "-" + r);
      Associative(n + "-" + e, ":", v + ("-" + r));
      Associative(n + "-", e, ":" + (v + ("-" + r)));
      Associative(n, "-", e + (":" + (v + ("-" + r))));
      IndexOfAppend(n, "-" + (e + (":" + (v + ("-" + r)))), ':');
    }
  }

  /** After the first ':' of x:rest there is all of rest. */
  lemma DashAfterColon(x: string, rest: string)
    requires '-' in rest
    ensures var s := x + ":" + rest;
      var i := IndexOf(s, ':');
      i < |s| && '-' in s[i + 1..]
  {
    var s := x + ":" + rest;
    assert s[|x|] == ':';
    FirstIndexAtMost(s, ':', |x|);
    var i := IndexOf(s, ':');
    assert s[i + 1..] == (x + ":")[i + 1..] + rest;
    InSuffix((x + ":")[i + 1..], rest, '-');
  }

  lemma DashIsBeyond(s: string, k: nat, i: nat)
    requires i <= |s| && k < |s| && s[k] == '-' && '-' !in s[..i]
    ensures i <= k
  {
    assert forall j :: 0 <= j < i ==> s[..i][j] == s[j];
  }

  /** If the prefix before the first ':' were taken for the epoch, the name could not come out right. */
  lemma SwappedNeverMatches(n: string, e: string, v: string, r: string, i: nat)
    requires var s := n + "-" + e + ":" + v + "-" + r;
      i == IndexOf(s, ':') && i < |s| && '-' !in s[..i]
    ensures (n + "-" + e + ":" + v + "-" + r)[i + 1..] != n + "-" + v + "-" + r
  {
    var s := n + "-" + e + ":" + v + "-" + r;
    var k := |n| + 1 + |e|;
    assert s[k] == ':';
    FirstIndexAtMost(s, ':', k);
    assert s[|n|] == '-';
    assert i <= |n| by {
      DashIsBeyond(s, |n|, i);
    }
    assert (n + "-" + v + "-" + r)[|n|] == '-';
    if |e| == i {
      assert s[i + 1..][|n|] == s[k];
    }
  }

  /** A name p:q with no '-' in p is not printed in a way that can be read: p comes back as the epoch, q as the
      name, and the epoch as a part of the version. */
  lemma ColonInNameIsMisread(p: string, q: string, e: string, v: string, r: string, a: string)
    requires '-' !in p && ':' !in p && e != ""
    requires '-' !in e && '-' !in v && '-' !in r && '.' !in a && '-' !in a
    ensures StrToNevra(PackageNevra(p + ":" + q, Some(e), v, r, a))
      == Some(Nevra(q, Some(p), Some(e + ":" + v), Some(r), Some(a)))
  {
    NotInAppend(e, ":", '-');
    NotInAppend(e + ":", v, '-');
    EpochFirst(q, p, e + ":" + v, r, a);
    SameText(p, q, e, v, r);
  }

  lemma SameText(p: string, q: string, e: string, v: string, r: string)
    ensures p + ":" + q + "-" + e + ":" + v + "-" + r == p + ":" + (q + "-" + (e + ":" + v) + "-" + r)
  {
    NameEpochVersion(q, e, v);
    Associative(p + ":", q, "-");
    Associative(p + ":", q + "-", e);
    Associative(p + ":", q + "-" + e, ":");
    Associative(p + ":", q + "-" + e + ":", v);
    Associative(p + ":", q + "-" + e + ":" + v, "-");
    Associative(p + ":", q + "-" + e + ":" + v + "-", r);
  }

  // ---------------------------------------------------------------- file names

  /** The usual file name, N-V-R.A and ".rpm", alone or in a directory. */
  lemma FilenameParses(dir: string, n: string, v: string, r: string, a: string)
    requires ':' !in n && ':' !in v && ':' !in r && ':' !in a
    requires '/' !in n && '/' !in v && '/' !in r && '/' !in a
    requires '-' !in v && '-' !in r && '.' !in a && '-' !in a
    ensures var base := n + "-" + v + "-" + r + "." + a + ".rpm";
      && SplitRpmFilename(base) == Some(Nevra(n, None, Some(v), Some(r), Some(a)))
      && SplitRpmFilename(dir + "/" + base) == SplitRpmFilename(base)
  {
    var nvra := n + "-" + v + "-" + r + "." + a;
    NotInNvra(n, v, r, a, ':');
    NotInNvra(n, v, r, a, '/');
    ParseNvra(n, v, r, a);
    PlainFilename(nvra);
    DirectoryIsIgnored(dir, nvra + ".rpm");
  }

  /** N-V-R.A.rpm:E, alone or in a directory. */
  lemma FilenameWithEpochParses(dir: string, n: string, v: string, r: string, a: string, e: string)
    requires ':' !in n && ':' !in v && ':' !in r && ':' !in a
    requires '/' !in n && '/' !in v && '/' !in r && '/' !in a && '/' !in e
    requires '-' !in v && '-' !in r && '.' !in a && '-' !in a
    ensures var base := n + "-" + v + "-" + r + "." + a + ".rpm" + ":" + e;
      && SplitRpmFilename(base) == Some(Nevra(n, Some(e), Some(v), Some(r), Some(a)))
      && SplitRpmFilename(dir + "/" + base) == SplitRpmFilename(base)
  {
    var nvra := n + "-" + v + "-" + r + "." + a;
    NotInNvra(n, v, r, a, ':');
    NotInNvra(n, v, r, a, '/');
    ParseNvra(n, v, r, a);
    EpochFilenameIsBare(nvra, e);
    FilenameWithEpoch(nvra, e);
    DirectoryIsIgnored(dir, nvra + ".rpm" + ":" + e);
  }

  /** N-V-R.A without an epoch */
  lemma ParseNvra(n: string, v: string, r: string, a: string)
    requires ':' !in n && ':' !in v && ':' !in r && ':' !in a
    requires '-' !in v && '-' !in r && '.' !in a && '-' !in a
    ensures StrToNevra(n + "-" + v + "-" + r + "." + a) == Some(Nevra(n, None, Some(v), Some(r), Some(a)))
  {
    ParsePlainNvr(n, v, r);
    NotInNvra(n, v, r, a, ':');
    NothingToStrip(n + "-" + v + "-" + r + "." + a);
    AttachArch(n + "-" + v + "-" + r, a);
  }

  lemma NothingToStrip(s: string)
    requires ':' !in s
    ensures StripEpoch(s) == (s, None)
  {
  }

  lemma EpochFilenameIsBare(nvra: string, e: string)
    requires '/' !in nvra && '/' !in e
    ensures '/' !in nvra + ".rpm" + ":" + e
  {
    NotInAppend(nvra, ".rpm", '/');
    NotInAppend(nvra + ".rpm", ":", '/');
    NotInAppend(nvra + ".rpm" + ":", e, '/');
  }

  lemma BareFilename(base: string)
    requires '/' !in base
    ensures GetFilename(base) == base
  {
  }

  lemma FilenameInDirectory(dir: string, base: string)
    requires '/' !in base
    ensures GetFilename(dir + "/" + base) == base
  {
    LastSplit(dir, '/', base);
    assert (dir + "/" + base)[|dir|] == '/';
  }

  lemma DirectoryIsIgnored(dir: string, base: string)
    requires '/' !in base
    ensures SplitRpmFilename(dir + "/" + base) == SplitRpmFilename(base)
  {
    FilenameInDirectory(dir, base);
    BareFilename(base);
  }

  lemma RpmSuffix(nvra: string)
    ensures HasSuffix(nvra + ".rpm", ".rpm")
    ensures (nvra + ".rpm")[..|nvra + ".rpm"| - 4] == nvra
  {
  }

  /** What cr_split_rpm_filename makes of a file name without a ':'. */
  lemma SplitPlain(base: string, nvra: string)
    requires IndexOf(base, ':') == |base|
    requires HasSuffix(base, ".rpm") && base[..|base| - 4] == nvra
    ensures SplitBasename(base) == StrToNevra(nvra)
  {
  }

  lemma PlainFilename(nvra: string)
    requires ':' !in nvra && '/' !in nvra
    ensures '/' !in nvra + ".rpm"
    ensures SplitRpmFilename(nvra + ".rpm") == StrToNevra(nvra)
  {
    NotInAppend(nvra, ".rpm", '/');
    NotInAppend(nvra, ".rpm", ':');
    BareFilename(nvra + ".rpm");
    RpmSuffix(nvra);
    SplitPlain(nvra + ".rpm", nvra);
  }

  /** What cr_split_rpm_filename makes of a file name with a ':' behind ".rpm". */
  lemma SplitAtEpoch(base: string, i: nat, str: string, nvra: string, e: string)
    requires IndexOf(base, ':') == i < |base|
    requires base[..i] == str && base[i + 1..] == e && HasSuffix(str, ".rpm") && str[..|str| - 4] == nvra
    requires StrToNevra(nvra).Some?
    ensures SplitBasename(base) == Some(StrToNevra(nvra).value.(epoch := Some(e)))
  {
  }

  lemma FilenameWithEpoch(nvra: string, e: string)
    requires ':' !in nvra && '/' !in nvra && '/' !in e && StrToNevra(nvra).Some?
    ensures SplitRpmFilename(nvra + ".rpm" + ":" + e) == Some(StrToNevra(nvra).value.(epoch := Some(e)))
  {
    EpochFilenameIsBare(nvra, e);
    BareFilename(nvra + ".rpm" + ":" + e);
    NotInAppend(nvra, ".rpm", ':');
    FirstSplit(nvra + ".rpm", ':', e);
    RpmSuffix(nvra);
    SplitAtEpoch(nvra + ".rpm" + ":" + e, |nvra + ".rpm"|, nvra + ".rpm", nvra, e);
  }

  lemma NotInNvra(n: string, v: string, r: string, a: string, c: char)
    requires c !in n && c !in v && c !in r && c !in a && c != '-' && c != '.'
    ensures c !in n + "-" + v + "-" + r + "." + a
  {
    NotInAppend(n, "-", c);
    NotInAppend(n + "-", v, c);
    NotInAppend(n + "-" + v, "-", c);
    NotInAppend(n + "-" + v + "-", r, c);
    NotInAppend(n + "-" + v + "-" + r, ".", c);
    NotInAppend(n + "-" + v + "-" + r + ".", a, c);
  }
}
