/** The architecture list of a merge (`append_arch`, `append_multilib_arch` and the archlist part of
    `check_arguments` in src/mergerepo_c.c). */
module Archs {
  import opened Basics

  /** The compatible architectures an architecture is expanded to. */
  function Expansion(arch: string): seq<string> {
    match arch
    case "i386" => ["i486", "i586", "geode", "i686", "athlon"]
    case "x86_64" => ["ia32e", "amd64"]
    case "ppc64" => ["ppc64pseries", "ppc64iseries"]
    case "sparc64" => ["sparc64v", "sparc64v2"]
    case "sparc" => ["sparcv8", "sparcv9", "sparcv9v", "sparcv9v2"]
    case "alpha" => ["alphaev4", "alphaev45", "alphaev5", "alphaev56", "alphapca56", "alphaev6", "alphaev67", "alphaev68", "alphaev7"]
    case "armhfp" => ["armv7hl", "armv7hnl"]
    case "arm" => ["rmv5tel", "armv5tejl", "armv6l", "armv7l"]
    case "sh4" => ["sh4a"]
    case _ => []
  }

  /** The 32-bit architecture that goes with a 64-bit one. */
  function Multilib(arch: string): seq<string> {
    match arch
    case "x86_64" => ["i386"]
    case "ppc64" => ["ppc"]
    case "s390x" => ["s390"]
    case _ => []
  }

  /** append_arch without expansion: also adds "noarch" when anything is added. */
  function AppendPlain(list: seq<string>, arch: string): seq<string> {
    if arch in list then list
    else
      var added := [arch] + list;
      if "noarch" in added then added else ["noarch"] + added
  }

  function AppendAll(list: seq<string>, archs: seq<string>): seq<string> {
    if archs == [] then list else AppendPlain(AppendAll(list, archs[..|archs| - 1]), archs[|archs| - 1])
  }

  /** append_arch */
  function AppendArch(list: seq<string>, arch: string, expand: bool): seq<string> {
    if arch in list then list
    else AppendPlain(if expand then AppendAll([arch] + list, Expansion(arch)) else [arch] + list, "noarch")
  }

  function AppendMultilib(list: seq<string>, arch: string): seq<string> {
    if Multilib(arch) == [] then list else AppendArch(list, Multilib(arch)[0], true)
  }

  /** The list after the archs of the command line; empty ones are passed over. */
  function ArchList(archs: seq<string>, expand: bool): seq<string> {
    if archs == [] then []
    else
      var list := ArchList(archs[..|archs| - 1], expand);
      var arch := archs[|archs| - 1];
      if arch == "" then list
      else if expand then AppendMultilib(AppendArch(list, arch, true), arch)
      else AppendArch(list, arch, false)
  }

  /** check_arguments: the loop over the archs of the command line. */
  method ProcessArchlist(archs: seq<string>, expand: bool) returns (list: seq<string>)
    ensures list == ArchList(archs, expand)
  {
    list := [];
    for x := 0 to |archs|
      invariant list == ArchList(archs[..x], expand)
    {
      assert archs[..x + 1][..x] == archs[..x];
      if archs[x] != "" {
        list := AppendArch(list, archs[x], expand);
        if expand {
          list := AppendMultilib(list, archs[x]);
        }
      }
    }
    assert archs[..|archs|] == archs;
  }

  // ---------------------------------------------------------------- what ends up in the list

  /** No architecture twice; with anything comes "noarch"; and with an architecture comes what it expands to. */
  ghost predicate Closed(list: seq<string>, expand: bool) {
    && NoDuplicates(list)
    && (list != [] ==> "noarch" in list)
    && (expand ==> forall a, b :: a in list && b in Expansion(a) ==> b in list)
  }

  /** What an architecture of the command line stands for. */
  predicate StandsFor(arch: string, expand: bool, x: string) {
    || x == arch
    || x == "noarch"
    || (expand && (x in Expansion(arch) || x in Multilib(arch)))
    || (expand && Multilib(arch) != [] && x in Expansion(Multilib(arch)[0]))
  }

  /** Expansion is one level deep. */
  lemma NoNestedExpansion(arch: string, x: string)
    requires x in Expansion(arch)
    ensures Expansion(x) == []
  {
    if arch == "alpha" {
      NoNestedAlpha(x);
    } else if arch == "i386" || arch == "x86_64" || arch == "ppc64" {
      NoNestedIntel(arch, x);
    } else if arch == "sparc" || arch == "sparc64" {
      NoNestedSparc(arch, x);
    } else {
      NoNestedArm(arch, x);
    }
  }

  lemma NoNestedAlpha(x: string)
    requires x in Expansion("alpha")
    ensures Expansion(x) == []
  {
  }

  lemma NoNestedIntel(arch: string, x: string)
    requires arch in ["i386", "x86_64", "ppc64"] && x in Expansion(arch)
    ensures Expansion(x) == []
  {
  }

  lemma NoNestedSparc(arch: string, x: string)
    requires arch in ["sparc", "sparc64"] && x in Expansion(arch)
    ensures Expansion(x) == []
  {
  }

  lemma NoNestedArm(arch: string, x: string)
    requires arch !in ["alpha", "i386", "x86_64", "ppc64", "sparc", "sparc64"] && x in Expansion(arch)
    ensures Expansion(x) == []
  {
  }

  lemma Prepend(list: seq<string>, arch: string)
    requires NoDuplicates(list) && arch !in list
    ensures NoDuplicates([arch] + list)
    ensures forall x :: x in [arch] + list <==> x == arch || x in list
  {
  }

  lemma AppendPlainMembers(list: seq<string>, arch: string)
    requires NoDuplicates(list)
    ensures NoDuplicates(AppendPlain(list, arch))
    ensures forall x :: x in AppendPlain(list, arch) <==> x in list || x == arch || (x == "noarch" && arch !in list)
  {
    if arch !in list {
      Prepend(list, arch);
      if "noarch" !in [arch] + list {
        Prepend([arch] + list, "noarch");
      }
    }
  }

  lemma {:induction false} AppendAllMembers(list: seq<string>, archs: seq<string>)
    requires NoDuplicates(list)
    ensures NoDuplicates(AppendAll(list, archs))
    ensures forall x :: x in list || x in archs ==> x in AppendAll(list, archs)
    ensures forall x :: x in AppendAll(list, archs) ==> x in list || x in archs || x == "noarch"
  {
    if archs != [] {
      var n := |archs| - 1;
      AppendAllMembers(list, archs[..n]);
      AppendPlainMembers(AppendAll(list, archs[..n]), archs[n]);
      assert archs == archs[..n] + [archs[n]];
    }
  }

  lemma AppendArchMembers(list: seq<string>, arch: string, expand: bool)
    requires NoDuplicates(list)
    ensures NoDuplicates(AppendArch(list, arch, expand))
    ensures forall x :: x in AppendArch(list, arch, expand) <==>
      x in list || (arch !in list && (x == arch || x == "noarch" || (expand && x in Expansion(arch))))
  {
    if arch !in list {
      Prepend(list, arch);
      AppendAllMembers([arch] + list, Expansion(arch));
      AppendPlainMembers(if expand then AppendAll([arch] + list, Expansion(arch)) else [arch] + list, "noarch");
    }
  }

  /** Adding an architecture with its expansion and "noarch" keeps the list closed under expansion. */
  lemma StaysClosed(list: seq<string>, list': seq<string>, arch: string, a: string, b: string)
    requires forall x, y :: x in list && y in Expansion(x) ==> y in list
    requires forall x :: x in list' <==> x in list || x == arch || x == "noarch" || x in Expansion(arch)
    requires a in list' && b in Expansion(a)
    ensures b in list'
  {
    if a in Expansion(arch) {
      NoNestedExpansion(arch, a);
    }
  }

  lemma AppendArchCloses(list: seq<string>, arch: string, expand: bool)
    requires Closed(list, expand)
    ensures Closed(AppendArch(list, arch, expand), expand)
    ensures forall x :: x in AppendArch(list, arch, expand) <==>
      x in list || x == arch || x == "noarch" || (expand && x in Expansion(arch))
  {
    AppendArchMembers(list, arch, expand);
    var list' := AppendArch(list, arch, expand);
    if expand {
      forall a, b | a in list' && b in Expansion(a)
        ensures b in list'
      {
        StaysClosed(list, list', arch, a, b);
      }
    }
  }

  /** Some architecture of the command line stands for `x`. */
  ghost predicate Wanted(archs: seq<string>, expand: bool, x: string) {
    exists arch :: arch in archs && arch != "" && StandsFor(arch, expand, x)
  }

  lemma WantedStep(archs: seq<string>, expand: bool, x: string)
    requires archs != []
    ensures var n := |archs| - 1;
      Wanted(archs, expand, x) <==>
        Wanted(archs[..n], expand, x) || (archs[n] != "" && StandsFor(archs[n], expand, x))
  {
    var n := |archs| - 1;
    assert archs == archs[..n] + [archs[n]];
    assert archs[n] in archs;
  }

  lemma ArchListStep(archs: seq<string>, expand: bool)
    requires archs != [] && Closed(ArchList(archs[..|archs| - 1], expand), expand)
    ensures Closed(ArchList(archs, expand), expand)
    ensures var arch := archs[|archs| - 1];
      forall x :: x in ArchList(archs, expand) <==>
        x in ArchList(archs[..|archs| - 1], expand) || (arch != "" && StandsFor(arch, expand, x))
  {
    var before, arch := ArchList(archs[..|archs| - 1], expand), archs[|archs| - 1];
    if arch != "" && expand {
      AppendBoth(before, arch);
    } else if arch != "" {
      AppendArchCloses(before, arch, false);
    }
  }

  lemma AppendBoth(list: seq<string>, arch: string)
    requires Closed(list, true)
    ensures var list' := AppendMultilib(AppendArch(list, arch, true), arch);
      && Closed(list', true)
      && forall x :: x in list' <==> x in list || StandsFor(arch, true, x)
  {
    var mid := AppendArch(list, arch, true);
    AppendArchCloses(list, arch, true);
    OneMultilib(arch);
    if Multilib(arch) != [] {
      var multilib := Multilib(arch)[0];
      AppendArchCloses(mid, multilib, true);
    }
  }

  lemma OneMultilib(arch: string)
    ensures Multilib(arch) != [] ==> Multilib(arch) == [Multilib(arch)[0]]
  {
  }

  /** Exactly what the given architectures stand for is let through, each once; no early return of
      `append_arch` ever loses an expansion. */
  lemma {:induction false} ArchListMeaning(archs: seq<string>, expand: bool)
    ensures Closed(ArchList(archs, expand), expand)
    ensures forall x :: x in ArchList(archs, expand) <==> Wanted(archs, expand, x)
  {
    if archs != [] {
      ArchListMeaning(archs[..|archs| - 1], expand);
      ArchListStep(archs, expand);
      forall x
        ensures x in ArchList(archs, expand) <==> Wanted(archs, expand, x)
      {
        WantedStep(archs, expand, x);
      }
    }
  }

  /** What one architecture stands for when architectures are expanded. */
  function Compatible(arch: string): set<string> {
    {arch, "noarch"} +
    if arch == "i386" then {"i486", "i586", "geode", "i686", "athlon"}
    else if arch == "x86_64" then {"ia32e", "amd64", "i386", "i486", "i586", "geode", "i686", "athlon"}
    else if arch == "ppc64" then {"ppc64pseries", "ppc64iseries", "ppc"}
    else if arch == "s390x" then {"s390"}
    else if arch == "sparc64" then {"sparc64v", "sparc64v2"}
    else if arch == "sparc" then {"sparcv8", "sparcv9", "sparcv9v", "sparcv9v2"}
    else if arch == "alpha" then {"alphaev4", "alphaev45", "alphaev5", "alphaev56", "alphapca56",
                                  "alphaev6", "alphaev67", "alphaev68", "alphaev7"}
    else if arch == "armhfp" then {"armv7hl", "armv7hnl"}
    else if arch == "arm" then {"rmv5tel", "armv5tejl", "armv6l", "armv7l"}
    else if arch == "sh4" then {"sh4a"}
    else {}
  }

  lemma StandsForCompatible(arch: string, x: string)
    ensures StandsFor(arch, true, x) <==> x in Compatible(arch)
  {
    if arch == "x86_64" || arch == "ppc64" || arch == "s390x" {
      MultilibCompatible(arch, x);
    } else if arch == "alpha" || arch == "sparc" || arch == "sparc64" {
      SparcCompatible(arch, x);
    } else {
      OtherCompatible(arch, x);
    }
  }

  lemma MultilibCompatible(arch: string, x: string)
    requires arch in ["x86_64", "ppc64", "s390x"]
    ensures StandsFor(arch, true, x) <==> x in Compatible(arch)
  {
  }

  lemma SparcCompatible(arch: string, x: string)
    requires arch in ["alpha", "sparc", "sparc64"]
    ensures StandsFor(arch, true, x) <==> x in Compatible(arch)
  {
  }

  lemma OtherCompatible(arch: string, x: string)
    requires arch !in ["x86_64", "ppc64", "s390x", "alpha", "sparc", "sparc64"]
    ensures StandsFor(arch, true, x) <==> x in Compatible(arch)
  {
  }

  /** With expansion the list holds exactly the compatible architectures of those given, and without it those given
      and "noarch". */
  lemma ArchListIsCompatible(archs: seq<string>, x: string)
    ensures x in ArchList(archs, true) <==> exists arch :: arch in archs && arch != "" && x in Compatible(arch)
    ensures x in ArchList(archs, false) <==> exists arch :: arch in archs && arch != "" && x in {arch, "noarch"}
  {
    ArchListMeaning(archs, true);
    ArchListMeaning(archs, false);
    forall arch
      ensures StandsFor(arch, true, x) <==> x in Compatible(arch)
    {
      StandsForCompatible(arch, x);
    }
  }
}
