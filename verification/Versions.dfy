/** Comparison of versions (src/misc.c). `rpmvercmp` belongs to librpm: it is a parameter here, of which
    only the laws of a total preorder are assumed. */
module Versions {
  import opened Basics

  type Vercmp = (string, string) -> int

  /** -1, 0 or 1; reflexive; changing sign when flipped; transitive. */
  ghost predicate Lawful(vercmp: Vercmp) {
    && (forall a, b :: vercmp(a, b) == -1 || vercmp(a, b) == 0 || vercmp(a, b) == 1)
    && (forall a, b :: vercmp(b, a) == -vercmp(a, b))
    && (forall a, b, c :: vercmp(a, b) <= 0 && vercmp(b, c) <= 0 ==> vercmp(a, c) <= 0)
  }

  /** cr_compare_values */
  function CompareValues(vercmp: Vercmp, a: Option<string>, b: Option<string>): int {
    if a.None? && b.None? then 0
    else if b.None? then 1
    else if a.None? then -1
    else vercmp(a.value, b.value)
  }

  function OrEmpty(s: Option<string>): string {
    if s.Some? then s.value else ""
  }

  /** cr_cmp_version_str: 0 same, 1 first is bigger, 2 second is bigger */
  function CmpVersionStr(vercmp: Vercmp, a: Option<string>, b: Option<string>): int {
    var rc := CompareValues(vercmp, Some(OrEmpty(a)), Some(OrEmpty(b)));
    if rc == -1 then 2 else rc
  }

  datatype Evr = Evr(epoch: Option<string>, version: Option<string>, release: Option<string>)

  /** cr_cmp_evr: a missing epoch is "0", a missing version or release is before every other. */
  function CmpEvr(vercmp: Vercmp, a: Evr, b: Evr): int {
    var zero := Some("0");
    var e := CompareValues(vercmp, if a.epoch.None? then zero else a.epoch, if b.epoch.None? then zero else b.epoch);
    if e != 0 then e
    else
      var v := CompareValues(vercmp, a.version, b.version);
      if v != 0 then v else CompareValues(vercmp, a.release, b.release)
  }

  lemma CompareValuesLaws(vercmp: Vercmp, a: Option<string>, b: Option<string>, c: Option<string>)
    requires Lawful(vercmp)
    ensures CompareValues(vercmp, a, b) in {-1, 0, 1}
    ensures CompareValues(vercmp, b, a) == -CompareValues(vercmp, a, b)
    ensures CompareValues(vercmp, a, b) <= 0 && CompareValues(vercmp, b, c) <= 0 ==> CompareValues(vercmp, a, c) <= 0
    ensures CompareValues(vercmp, a, b) < 0 && CompareValues(vercmp, b, c) <= 0 ==> CompareValues(vercmp, a, c) < 0
    ensures CompareValues(vercmp, a, b) <= 0 && CompareValues(vercmp, b, c) < 0 ==> CompareValues(vercmp, a, c) < 0
  {
    if a.Some? && b.Some? && c.Some? {
      var x, y, z := a.value, b.value, c.value;
      assert vercmp(b.value, a.value) == -vercmp(a.value, b.value);
      assert vercmp(z, y) <= 0 && vercmp(x, z) >= 0 ==> vercmp(z, x) <= 0;
      assert vercmp(z, x) <= 0 && vercmp(x, y) <= 0 ==> vercmp(z, y) <= 0;
      assert vercmp(y, z) <= 0 && vercmp(z, x) <= 0 ==> vercmp(y, x) <= 0;
      assert vercmp(z, y) == -vercmp(y, z) && vercmp(z, x) == -vercmp(x, z);
    }
  }

  /** cr_cmp_evr is a total preorder. */
  lemma CmpEvrIsTotalPreorder(vercmp: Vercmp, a: Evr, b: Evr, c: Evr)
    requires Lawful(vercmp)
    ensures CmpEvr(vercmp, a, b) in {-1, 0, 1}
    ensures CmpEvr(vercmp, b, a) == -CmpEvr(vercmp, a, b)
    ensures CmpEvr(vercmp, a, a) == 0
    ensures CmpEvr(vercmp, a, b) <= 0 && CmpEvr(vercmp, b, c) <= 0 ==> CmpEvr(vercmp, a, c) <= 0
    ensures CmpEvr(vercmp, a, b) == 0 && CmpEvr(vercmp, b, c) == 0 ==> CmpEvr(vercmp, a, c) == 0
  {
    var ea := if a.epoch.None? then Some("0") else a.epoch;
    var eb := if b.epoch.None? then Some("0") else b.epoch;
    var ec := if c.epoch.None? then Some("0") else c.epoch;
    CompareValuesLaws(vercmp, ea, eb, ec);
    CompareValuesLaws(vercmp, eb, ec, ec);
    CompareValuesLaws(vercmp, ea, ec, ec);
    CompareValuesLaws(vercmp, ec, eb, ea);
    CompareValuesLaws(vercmp, ea, ea, ea);
    CompareValuesLaws(vercmp, a.version, b.version, c.version);
    CompareValuesLaws(vercmp, b.version, c.version, c.version);
    CompareValuesLaws(vercmp, a.version, c.version, c.version);
    CompareValuesLaws(vercmp, c.version, b.version, a.version);
    CompareValuesLaws(vercmp, a.version, a.version, a.version);
    CompareValuesLaws(vercmp, a.release, b.release, c.release);
    CompareValuesLaws(vercmp, b.release, c.release, c.release);
    CompareValuesLaws(vercmp, a.release, c.release, c.release);
    CompareValuesLaws(vercmp, c.release, b.release, a.release);
    CompareValuesLaws(vercmp, a.release, a.release, a.release);
  }

  // ---------------------------------------------------------------- which sign means what

  /** -1, 0 and 1: before, the same and behind, with a missing string before all others. */
  lemma CompareValuesMeaning(vercmp: Vercmp, a: Option<string>, b: Option<string>)
    requires Lawful(vercmp)
    ensures CompareValues(vercmp, a, b) < 0 <==>
      (a.None? && b.Some?) || (a.Some? && b.Some? && vercmp(a.value, b.value) < 0)
    ensures CompareValues(vercmp, a, b) == 0 <==>
      (a.None? && b.None?) || (a.Some? && b.Some? && vercmp(a.value, b.value) == 0)
  {
  }

  /** A missing epoch counts as "0". */
  lemma MissingEpochIsZero(vercmp: Vercmp, a: Evr, b: Evr)
    ensures CmpEvr(vercmp, a.(epoch := None), b) == CmpEvr(vercmp, a.(epoch := Some("0")), b)
    ensures CmpEvr(vercmp, a, b.(epoch := None)) == CmpEvr(vercmp, a, b.(epoch := Some("0")))
  {
  }

  /** The epoch decides; if it is the same the version; if that is the same too the release. */
  lemma CmpEvrMeaning(vercmp: Vercmp, e: string, v: Option<string>, r: Option<string>,
                      e': string, v': Option<string>, r': Option<string>)
    requires Lawful(vercmp)
    ensures CmpEvr(vercmp, Evr(Some(e), v, r), Evr(Some(e'), v', r')) < 0 <==>
      || vercmp(e, e') < 0
      || (vercmp(e, e') == 0 && CompareValues(vercmp, v, v') < 0)
      || (vercmp(e, e') == 0 && CompareValues(vercmp, v, v') == 0 && CompareValues(vercmp, r, r') < 0)
    ensures CmpEvr(vercmp, Evr(Some(e), v, r), Evr(Some(e'), v', r')) == 0 <==>
      vercmp(e, e') == 0 && CompareValues(vercmp, v, v') == 0 && CompareValues(vercmp, r, r') == 0
  {
  }
}
