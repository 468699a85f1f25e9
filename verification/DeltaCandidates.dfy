/** Which old packages a delta job uses (`cr_delta_thread` in src/deltarpms.c): the candidates of one directory
    of old packages, newest first, until enough deltas are made. */
module DeltaCandidates {
  import opened Basics
  import opened Sorting
  import opened Versions

  datatype Rpm = Rpm(name: string, arch: Option<string>, evr: Evr)

  /** A file name in the list of a directory's files: what the file holds, if it can be read, and whether a delta from it can be made. */
  datatype OldFile = OldFile(filename: string, rpm: Option<Rpm>, creates: bool)

  predicate HasPrefix(s: string, prefix: string) {
    |prefix| <= |s| && s[..|prefix|] == prefix
  }

  /** An older package of the same name and architecture, in a file whose name starts with that name. */
  predicate Eligible(vercmp: Vercmp, target: Rpm, f: OldFile) {
    && HasPrefix(f.filename, target.name)
    && f.rpm.Some?
    && f.rpm.value.name == target.name
    && f.rpm.value.arch == target.arch
    && CmpEvr(vercmp, target.evr, f.rpm.value.evr) > 0
  }

  type Candidate = f: OldFile | f.rpm.Some? witness OldFile("", Some(Rpm("", None, Evr(None, None, None))), false)

  /** cmp_deltatargetpackage_evr */
  function Cmp(vercmp: Vercmp): (Candidate, Candidate) -> int {
    (a: Candidate, b: Candidate) => CmpEvr(vercmp, a.rpm.value.evr, b.rpm.value.evr)
  }

  /** The eligible files, in the order of the list. */
  function Candidates(vercmp: Vercmp, target: Rpm, files: seq<OldFile>): seq<Candidate> {
    if files == [] then []
    else
      var f := files[|files| - 1];
      Candidates(vercmp, target, files[..|files| - 1]) + if Eligible(vercmp, target, f) then [f] else []
  }

  /** Candidates are prepended to their list, which is then sorted and reversed. */
  function Ordered(vercmp: Vercmp, target: Rpm, files: seq<OldFile>): seq<Candidate> {
    SortDescending(Cmp(vercmp), Candidates(vercmp, target, files))
  }

  function Creatable(cs: seq<Candidate>): seq<Candidate> {
    if cs == [] then []
    else Creatable(cs[..|cs| - 1]) + if cs[|cs| - 1].creates then [cs[|cs| - 1]] else []
  }

  /** The first `numDeltas` that succeed; all of them when the number is not positive. */
  function Used(cs: seq<Candidate>, numDeltas: int): seq<Candidate> {
    var creatable := Creatable(cs);
    if 0 < numDeltas < |creatable| then creatable[..numDeltas] else creatable
  }

  // ---------------------------------------------------------------- the loops

  method GenerateDeltas(vercmp: Vercmp, target: Rpm, files: seq<OldFile>, numDeltas: int)
    returns (used: seq<Candidate>)
    ensures used == Used(Ordered(vercmp, target, files), numDeltas)
  {
    var candidates: seq<Candidate> := [];
    for i := 0 to |files|
      invariant candidates == Reversed(Candidates(vercmp, target, files[..i]))
    {
      assert files[..i + 1][..i] == files[..i];
      if Eligible(vercmp, target, files[i]) {
        ReversedAppend(Candidates(vercmp, target, files[..i]), files[i]);
        candidates := [files[i]] + candidates;
      }
    }
    assert files[..|files|] == files;
    candidates := Reversed(Sort(Cmp(vercmp), candidates));
    used := CreateDeltas(candidates, numDeltas);
  }

  method CreateDeltas(candidates: seq<Candidate>, numDeltas: int) returns (used: seq<Candidate>)
    ensures used == Used(candidates, numDeltas)
  {
    used := [];
    var x := 0;
    for i := 0 to |candidates|
      invariant used == Creatable(candidates[..i])
      invariant x == |used| && (numDeltas > 0 ==> x < numDeltas)
    {
      assert candidates[..i + 1][..i] == candidates[..i];
      if candidates[i].creates {
        used := used + [candidates[i]];
        x := x + 1;
        if x == numDeltas {
          CreatablePrefix(candidates, i + 1);
          return;
        }
      }
    }
    assert candidates[..|candidates|] == candidates;
  }

  lemma ReversedAppend(cs: seq<Candidate>, c: Candidate)
    ensures Reversed(cs + [c]) == [c] + Reversed(cs)
  {
  }

  lemma {:induction false} CreatablePrefix(cs: seq<Candidate>, n: nat)
    requires n <= |cs|
    ensures |Creatable(cs[..n])| <= |Creatable(cs)|
    ensures Creatable(cs)[..|Creatable(cs[..n])|] == Creatable(cs[..n])
  {
    if n < |cs| {
      var m := |cs| - 1;
      CreatablePrefix(cs[..m], n);
      assert cs[..m][..n] == cs[..n];
    } else {
      assert cs[..n] == cs;
    }
  }

  // ---------------------------------------------------------------- what is used

  lemma {:induction false} CandidatesAreEligible(vercmp: Vercmp, target: Rpm, files: seq<OldFile>)
    ensures forall f :: f in Candidates(vercmp, target, files) <==> f in files && Eligible(vercmp, target, f)
  {
    if files != [] {
      var n := |files| - 1;
      CandidatesAreEligible(vercmp, target, files[..n]);
      assert files == files[..n] + [files[n]];
    }
  }

  lemma CmpIsPreorder(vercmp: Vercmp)
    requires Lawful(vercmp)
    ensures Preorder(Cmp(vercmp))
  {
    forall a: Candidate, b: Candidate, c: Candidate
      ensures Cmp(vercmp)(a, b) <= 0 && Cmp(vercmp)(b, c) <= 0 ==> Cmp(vercmp)(a, c) <= 0
      ensures Cmp(vercmp)(a, b) < 0 <==> Cmp(vercmp)(b, a) > 0
    {
      CmpEvrIsTotalPreorder(vercmp, a.rpm.value.evr, b.rpm.value.evr, c.rpm.value.evr);
    }
  }

  /** The candidates in the order they are tried: the readable files named after the target that hold an older
      package of its name and architecture, newest first, and equal versions in the order of the list. */
  lemma OrderedIsNewestFirst(vercmp: Vercmp, target: Rpm, files: seq<OldFile>)
    requires Lawful(vercmp)
    ensures var ordered := Ordered(vercmp, target, files);
      && IsStableDescending(Cmp(vercmp), ordered, Candidates(vercmp, target, files))
      && (forall i, j :: 0 <= i < j < |ordered| ==>
           CmpEvr(vercmp, ordered[j].rpm.value.evr, ordered[i].rpm.value.evr) <= 0)
      && (forall f :: f in ordered <==> f in files && Eligible(vercmp, target, f))
  {
    var cs := Candidates(vercmp, target, files);
    var ordered := Ordered(vercmp, target, files);
    CmpIsPreorder(vercmp);
    SortDescendingSorts(Cmp(vercmp), cs);
    CandidatesAreEligible(vercmp, target, files);
    SameMembers(ordered, cs);
    forall i, j | 0 <= i < j < |ordered|
      ensures CmpEvr(vercmp, ordered[j].rpm.value.evr, ordered[i].rpm.value.evr) <= 0
    {
      assert Cmp(vercmp)(ordered[j], ordered[i]) <= 0;
    }
  }

  /** A file is eligible iff its name begins with the target's, and it can be read and holds a package of the
      target's name and architecture that is older than the target. */
  lemma EligibleIsOlder(vercmp: Vercmp, target: Rpm, f: OldFile)
    requires Lawful(vercmp)
    ensures Eligible(vercmp, target, f) <==>
      && (exists rest :: f.filename == target.name + rest)
      && f.rpm.Some?
      && f.rpm.value.name == target.name
      && f.rpm.value.arch == target.arch
      && CmpEvr(vercmp, f.rpm.value.evr, target.evr) < 0
  {
    if f.rpm.Some? {
      CmpEvrIsTotalPreorder(vercmp, target.evr, f.rpm.value.evr, target.evr);
    }
    if HasPrefix(f.filename, target.name) {
      assert f.filename == target.name + f.filename[|target.name|..];
    }
  }

  /** Created deltas come in the order of the candidates. */
  lemma {:induction false} CreatableIs(vercmp: Vercmp, cs: seq<Candidate>)
    requires Descending(Cmp(vercmp), cs)
    ensures Descending(Cmp(vercmp), Creatable(cs))
    ensures forall f :: f in Creatable(cs) <==> f in cs && f.creates
  {
    if cs != [] {
      var n := |cs| - 1;
      CreatableIs(vercmp, cs[..n]);
      assert cs == cs[..n] + [cs[n]];
      var before := Creatable(cs[..n]);
      forall i | 0 <= i < |before|
        ensures Cmp(vercmp)(cs[n], before[i]) <= 0
      {
        assert before[i] in cs[..n];
        var k :| 0 <= k < n && cs[k] == before[i];
      }
    }
  }

  /** Deltas are made from eligible files only, at most as many as wanted, and an eligible file from which
      a delta could be made is passed over only when enough deltas come from files that are not older. */
  lemma NewestAreUsed(vercmp: Vercmp, target: Rpm, files: seq<OldFile>, numDeltas: int, f: OldFile)
    requires Lawful(vercmp)
    ensures var used := Used(Ordered(vercmp, target, files), numDeltas);
      && (f in used ==> f in files && Eligible(vercmp, target, f) && f.creates)
      && (numDeltas > 0 ==> |used| <= numDeltas)
      && (f in files && Eligible(vercmp, target, f) && f.creates && f !in used ==>
           |used| == numDeltas && forall g :: g in used ==> Cmp(vercmp)(f, g) <= 0)
  {
    var ordered := Ordered(vercmp, target, files);
    if f in files && Eligible(vercmp, target, f) {
      OrderedIsNewestFirst(vercmp, target, files);
      CreatableIs(vercmp, ordered);
      if f.creates && f !in Used(ordered, numDeltas) {
        LaterIsOlder(vercmp, Creatable(ordered), numDeltas, f);
      }
    } else {
      UsedAreOrdered(vercmp, target, files, numDeltas, f);
    }
  }

  lemma UsedAreOrdered(vercmp: Vercmp, target: Rpm, files: seq<OldFile>, numDeltas: int, f: OldFile)
    requires Lawful(vercmp) && !(f in files && Eligible(vercmp, target, f))
    ensures f !in Used(Ordered(vercmp, target, files), numDeltas)
  {
    var ordered := Ordered(vercmp, target, files);
    if f.rpm.Some? {
      OrderedIsNewestFirst(vercmp, target, files);
      CreatableIs(vercmp, ordered);
    }
  }

  lemma LaterIsOlder(vercmp: Vercmp, cs: seq<Candidate>, n: nat, f: Candidate)
    requires Descending(Cmp(vercmp), cs) && n < |cs| && f in cs && f !in cs[..n]
    ensures forall g :: g in cs[..n] ==> Cmp(vercmp)(f, g) <= 0
  {
    var k := LaterPosition(cs, n, f);
    forall g | g in cs[..n]
      ensures Cmp(vercmp)(f, g) <= 0
    {
      var i :| 0 <= i < n && cs[..n][i] == g;
      assert Cmp(vercmp)(cs[k], cs[i]) <= 0;
    }
  }

  lemma LaterPosition(cs: seq<Candidate>, n: nat, f: Candidate) returns (k: nat)
    requires n < |cs| && f in cs && f !in cs[..n]
    ensures n <= k < |cs| && cs[k] == f
  {
    assert cs == cs[..n] + cs[n..];
    var j: nat :| j < |cs[n..]| && cs[n..][j] == f;
    k := n + j;
  }
}
