/** The record list of repomd.xml (src/repomd.c): replacing, sorting and comparing records. */
module Repomd {
  import opened Basics
  import opened Sorting
  import opened Strings

  datatype Record = Record(
    kind: Option<string>,
    locationHref: Option<string>,
    locationBase: Option<string>,
    locationReal: Option<string>,
    checksum: Option<string>,
    checksumType: Option<string>,
    checksumOpen: Option<string>,
    checksumOpenType: Option<string>,
    checksumHeader: Option<string>,
    checksumHeaderType: Option<string>,
    timestamp: int,
    size: int,
    sizeOpen: int,
    sizeHeader: int,
    dbVer: int)

  datatype DistroTag = DistroTag(cpeid: Option<string>, val: Option<string>)

  /** The value of a `cr_Repomd`, without the fields that the comparison leaves alone. */
  datatype View = View(
    contenthash: Option<string>,
    contenthashType: Option<string>,
    repoTags: seq<Option<string>>,
    contentTags: seq<Option<string>>,
    distroTags: seq<DistroTag>,
    records: seq<Record>)

  // ---------------------------------------------------------------- comparing two records

  function TypeValue(kind: Option<string>): nat {
    match kind
    case Some("primary") => 1
    case Some("filelists") => 2
    case Some("other") => 3
    case Some("primary_db") => 4
    case Some("filelists_db") => 5
    case Some("other_db") => 6
    case Some("primary_zck") => 7
    case Some("filelists_zck") => 8
    case Some("other_zck") => 9
    case _ => 10
  }

  /** record_cmp */
  function RecordCmp(a: Record, b: Record): int {
    if TypeValue(a.kind) < TypeValue(b.kind) then -1
    else if TypeValue(a.kind) > TypeValue(b.kind) then 1
    else if Compare0(a.kind, b.kind) != 0 then Compare0(a.kind, b.kind)
    else if Compare0(a.locationHref, b.locationHref) != 0 then Compare0(a.locationHref, b.locationHref)
    else Compare0(a.locationBase, b.locationBase)
  }

  /** The chain of tests in the innermost loop of `cr_repomd_compare`. */
  predicate Matches(a: Record, b: Record) {
    && Compare0(a.kind, b.kind) == 0
    && Compare0(a.locationHref, b.locationHref) == 0
    && Compare0(a.locationBase, b.locationBase) == 0
    && Compare0(a.checksum, b.checksum) == 0
    && Compare0(a.checksumType, b.checksumType) == 0
    && Compare0(a.checksumOpen, b.checksumOpen) == 0
    && Compare0(a.checksumOpenType, b.checksumOpenType) == 0
    && Compare0(a.checksumHeader, b.checksumHeader) == 0
    && Compare0(a.checksumHeaderType, b.checksumHeaderType) == 0
    && a.size == b.size
    && a.sizeOpen == b.sizeOpen
    && a.sizeHeader == b.sizeHeader
    && a.dbVer == b.dbVer
  }

  /** The record without its timestamp and its real location, which are not compared. */
  function Compared(r: Record): Record {
    r.(timestamp := 0, locationReal := None)
  }

  /** `record_cmp` is a total order on (type, location href, location base). */
  lemma RecordCmpIsTotalOrder(a: Record, b: Record, c: Record)
    ensures RecordCmp(b, a) == -RecordCmp(a, b)
    ensures RecordCmp(a, b) <= 0 && RecordCmp(b, c) <= 0 ==> RecordCmp(a, c) <= 0
    ensures RecordCmp(a, b) == 0
      <==> a.kind == b.kind && a.locationHref == b.locationHref && a.locationBase == b.locationBase
  {
    Compare0IsTotalOrder(a.kind, b.kind, c.kind);
    Compare0IsTotalOrder(c.kind, a.kind, b.kind);
    Compare0IsTotalOrder(b.kind, c.kind, a.kind);
    Compare0IsTotalOrder(a.locationHref, b.locationHref, c.locationHref);
    Compare0IsTotalOrder(c.locationHref, a.locationHref, b.locationHref);
    Compare0IsTotalOrder(b.locationHref, c.locationHref, a.locationHref);
    Compare0IsTotalOrder(a.locationBase, b.locationBase, c.locationBase);
  }

  /** The types with a place of their own, in the order in which repomd.xml lists them. */
  const BASE_TYPES: seq<string> := [
    "primary", "filelists", "other",
    "primary_db", "filelists_db", "other_db",
    "primary_zck", "filelists_zck", "other_zck"]

  ghost predicate IsBaseType(kind: Option<string>) {
    kind.Some? && kind.value in BASE_TYPES
  }

  /** By type: a base type before those behind it and before all other types; other types in the dictionary. Of
      one type, by location and then by base. */
  ghost predicate RecordBefore(a: Record, b: Record) {
    || (exists i :: BaseBefore(a.kind, b.kind, i))
    || (!IsBaseType(a.kind) && !IsBaseType(b.kind) && StandsBefore(a.kind, b.kind))
    || (a.kind == b.kind && StandsBefore(a.locationHref, b.locationHref))
    || (a.kind == b.kind && a.locationHref == b.locationHref && StandsBefore(a.locationBase, b.locationBase))
  }

  /** `a` is the i-th base type, and `b` neither that nor one before it. */
  ghost predicate BaseBefore(a: Option<string>, b: Option<string>, i: int) {
    0 <= i < |BASE_TYPES| && a == Some(BASE_TYPES[i]) && forall j :: 0 <= j <= i ==> b != Some(BASE_TYPES[j])
  }

  lemma BaseTypeValue(i: nat)
    requires i < |BASE_TYPES|
    ensures TypeValue(Some(BASE_TYPES[i])) == i + 1
  {
  }

  lemma OtherTypeValue(kind: Option<string>)
    requires !IsBaseType(kind)
    ensures TypeValue(kind) == 10
  {
    assert forall i :: 0 <= i < |BASE_TYPES| ==> BASE_TYPES[i] in BASE_TYPES;
  }

  /** The place of a type. */
  lemma PlaceOf(kind: Option<string>) returns (i: nat)
    ensures i <= |BASE_TYPES| && TypeValue(kind) == i + 1
    ensures i < |BASE_TYPES| <==> IsBaseType(kind)
    ensures i < |BASE_TYPES| ==> kind == Some(BASE_TYPES[i])
    ensures forall j :: 0 <= j < |BASE_TYPES| && j != i ==> kind != Some(BASE_TYPES[j])
  {
    if IsBaseType(kind) {
      i :| 0 <= i < |BASE_TYPES| && BASE_TYPES[i] == kind.value;
      BaseTypeValue(i);
      forall j: nat | j < |BASE_TYPES| && j != i
        ensures kind != Some(BASE_TYPES[j])
      {
        BaseTypeValue(j);
      }
    } else {
      OtherTypeValue(kind);
      i := |BASE_TYPES|;
    }
  }

  /** record_cmp is negative iff the first record comes before the second. */
  lemma RecordCmpMeaning(a: Record, b: Record)
    ensures RecordCmp(a, b) < 0 <==> RecordBefore(a, b)
  {
    var i := PlaceOf(a.kind);
    var j := PlaceOf(b.kind);
    Compare0Meaning(a.kind, b.kind);
    Compare0Meaning(a.locationHref, b.locationHref);
    Compare0Meaning(a.locationBase, b.locationBase);
    if i < j {
      assert BaseBefore(a.kind, b.kind, i);
    } else {
      assert forall k :: !BaseBefore(a.kind, b.kind, k);
    }
  }

  // ---------------------------------------------------------------- record lists

  /** The records of another type than `kind`, in order. */
  function Others(records: seq<Record>, kind: Option<string>): seq<Record> {
    if records == [] then []
    else if records[0].kind == kind then Others(records[1..], kind)
    else [records[0]] + Others(records[1..], kind)
  }

  /** The list after `cr_repomd_set_record`: a NULL type is never looked up, so it replaces nothing. */
  function WithRecord(records: seq<Record>, record: Record): seq<Record> {
    (if record.kind.None? then records else Others(records, record.kind)) + [record]
  }

  /** The compared parts of all records. */
  function AllCompared(records: seq<Record>): seq<Record> {
    Mapped(records, Compared)
  }

  predicate DistinctKinds(records: seq<Record>) {
    forall i, j :: 0 <= i < j < |records| ==> records[i].kind != records[j].kind
  }

  function SortRecords(records: seq<Record>): seq<Record> {
    Sort(RecordCmp, records)
  }

  /** Every element of the first list is matched by some element of the second, and the lengths are equal. */
  predicate Contained<T(!new)>(xs: seq<T>, ys: seq<T>, same: (T, T) -> bool) {
    && |xs| == |ys|
    && forall i :: 0 <= i < |xs| ==> Found(xs[i], ys, same)
  }

  predicate Found<T(!new)>(x: T, ys: seq<T>, same: (T, T) -> bool) {
    exists j :: 0 <= j < |ys| && same(x, ys[j])
  }

  predicate SameTag(a: Option<string>, b: Option<string>) {
    Compare0(a, b) == 0
  }

  predicate SameDistroTag(a: DistroTag, b: DistroTag) {
    Compare0(a.cpeid, b.cpeid) == 0 && Compare0(a.val, b.val) == 0
  }

  /** What `cr_repomd_compare` answers. */
  predicate SameRepomd(a: View, b: View) {
    && a.contenthash == b.contenthash
    && a.contenthashType == b.contenthashType
    && Contained(a.repoTags, b.repoTags, SameTag)
    && Contained(a.contentTags, b.contentTags, SameTag)
    && Contained(a.distroTags, b.distroTags, SameDistroTag)
    && Contained(a.records, b.records, Matches)
  }

  // ---------------------------------------------------------------- the object

  class Repomd {
    var contenthash: Option<string>
    var contenthashType: Option<string>
    var repoTags: seq<Option<string>>
    var contentTags: seq<Option<string>>
    var distroTags: seq<DistroTag>
    var records: seq<Record>

    constructor ()
      ensures Value() == View(None, None, [], [], [], [])
    {
      contenthash, contenthashType := None, None;
      repoTags, contentTags, distroTags, records := [], [], [], [];
    }

    function Value(): View
      reads this
    {
      View(contenthash, contenthashType, repoTags, contentTags, distroTags, records)
    }

    /** cr_repomd_get_record: the position of the first record of the type. */
    method GetRecord(kind: Option<string>) returns (found: Option<nat>)
      ensures found.Some? ==>
        && kind.Some?
        && 0 <= found.value < |records|
        && records[found.value].kind == kind
        && forall i :: 0 <= i < found.value ==> records[i].kind != kind
      ensures found.None? && kind.Some? ==> forall i :: 0 <= i < |records| ==> records[i].kind != kind
    {
      if kind.None? {
        return None;
      }
      for i := 0 to |records|
        invariant forall j :: 0 <= j < i ==> records[j].kind != kind
      {
        if Compare0(records[i].kind, kind) == 0 {
          return Some(i);
        }
      }
      return None;
    }

    /** cr_repomd_set_record */
    method SetRecord(record: Record)
      modifies this`records
      ensures records == WithRecord(old(records), record)
      ensures records != [] && records[|records| - 1] == record
    {
      var delrec := GetRecord(record.kind);
      while delrec.Some?
        invariant delrec.Some? ==> record.kind.Some? && 0 <= delrec.value < |records| && records[delrec.value].kind == record.kind
        invariant record.kind.None? ==> records == old(records)
        invariant Others(records, record.kind) == Others(old(records), record.kind)
        invariant delrec.None? && record.kind.Some? ==> forall i :: 0 <= i < |records| ==> records[i].kind != record.kind
        decreases |records|, delrec
      {
        OthersWithout(records, delrec.value);
        records := RemoveAt(records, delrec.value);
        delrec := GetRecord(record.kind);
      }
      if record.kind.Some? {
        OthersOfNone(records, record.kind);
      }
      records := records + [record];
    }

    /** cr_repomd_sort_records: sorted, with the same records, and records that compare as equal in the order
        they had. */
    method SortAll()
      modifies this`records
      ensures IsStableSort(RecordCmp, records, old(records))
      ensures forall i, j :: 0 <= i < j < |records| ==> !RecordBefore(records[j], records[i])
    {
      RecordCmpIsPreorder();
      SortIsStableSort(RecordCmp, records);
      SortedIsInOrder(SortRecords(records));
      records := SortRecords(records);
    }

    /** cr_repomd_compare */
    method Compare(other: Repomd) returns (equal: bool)
      ensures equal == SameRepomd(Value(), other.Value())
    {
      if Compare0(contenthash, other.contenthash) != 0 || Compare0(contenthashType, other.contenthashType) != 0 {
        return false;
      }
      equal := AllFound(repoTags, other.repoTags, SameTag);
      if equal {
        equal := AllFound(contentTags, other.contentTags, SameTag);
      }
      if equal {
        equal := AllFound(distroTags, other.distroTags, SameDistroTag);
      }
      if equal {
        equal := AllFound(records, other.records, Matches);
      }
    }
  }

  /** The pair of nested loops that `cr_repomd_compare` runs on each kind of list. */
  method AllFound<T(!new)>(xs: seq<T>, ys: seq<T>, same: (T, T) -> bool) returns (all: bool)
    ensures all == Contained(xs, ys, same)
  {
    if |xs| != |ys| {
      return false;
    }
    for i := 0 to |xs|
      invariant forall k :: 0 <= k < i ==> Found(xs[k], ys, same)
    {
      var found := false;
      var j := 0;
      while j < |ys| && !found
        invariant j <= |ys|
        invariant found ==> Found(xs[i], ys, same)
        invariant !found ==> forall k :: 0 <= k < j ==> !same(xs[i], ys[k])
        decreases |ys| - j, !found
      {
        found := same(xs[i], ys[j]);
        j := j + 1;
      }
      if !found {
        assert !Found(xs[i], ys, same);
        return false;
      }
    }
    return true;
  }

  // ---------------------------------------------------------------- set_record

  lemma {:induction false} OthersWithout(records: seq<Record>, at: nat)
    requires at < |records|
    ensures Others(RemoveAt(records, at), records[at].kind) == Others(records, records[at].kind)
  {
    if at == 0 {
      assert RemoveAt(records, 0) == records[1..];
    } else {
      OthersWithout(records[1..], at - 1);
      var rest := RemoveAt(records, at);
      assert rest[0] == records[0] && rest[1..] == RemoveAt(records[1..], at - 1);
    }
  }

  lemma {:induction false} OthersOfNone(records: seq<Record>, kind: Option<string>)
    requires forall i :: 0 <= i < |records| ==> records[i].kind != kind
    ensures Others(records, kind) == records
  {
    if records != [] {
      OthersOfNone(records[1..], kind);
    }
  }

  lemma {:induction false} OthersMembers(records: seq<Record>, kind: Option<string>, r: Record)
    ensures r in Others(records, kind) <==> r in records && r.kind != kind
  {
    if records != [] {
      OthersMembers(records[1..], kind, r);
      assert r in records <==> r == records[0] || r in records[1..];
    }
  }

  lemma {:induction false} OthersStayDistinct(records: seq<Record>, kind: Option<string>)
    requires DistinctKinds(records)
    ensures DistinctKinds(Others(records, kind))
  {
    if records != [] {
      var tail := Others(records[1..], kind);
      OthersStayDistinct(records[1..], kind);
      forall j | 0 <= j < |tail|
        ensures tail[j].kind != records[0].kind
      {
        OthersMembers(records[1..], kind, tail[j]);
        var i :| 0 <= i < |records[1..]| && records[1..][i] == tail[j];
        assert records[i + 1] == tail[j];
      }
    }
  }

  /** Setting a record replaces all records of its type and keeps the others. */
  lemma SetRecordReplaces(records: seq<Record>, record: Record, r: Record)
    requires record.kind.Some?
    ensures r in WithRecord(records, record) <==> r == record || (r in records && r.kind != record.kind)
  {
    OthersMembers(records, record.kind, r);
  }

  /** Types stay pairwise distinct, except when a second record without a type is added. */
  lemma SetRecordKeepsDistinctIff(records: seq<Record>, record: Record)
    requires DistinctKinds(records)
    ensures DistinctKinds(WithRecord(records, record))
      <==> record.kind.Some? || forall i :: 0 <= i < |records| ==> records[i].kind.Some?
  {
    var after := WithRecord(records, record);
    if record.kind.Some? {
      var kept := Others(records, record.kind);
      OthersStayDistinct(records, record.kind);
      forall i | 0 <= i < |kept|
        ensures kept[i].kind != record.kind
      {
        OthersMembers(records, record.kind, kept[i]);
      }
    } else {
      assert forall i :: 0 <= i < |records| ==> after[i] == records[i];
      assert after[|records|] == record;
    }
  }

  /** The list after a series of `cr_repomd_set_record` calls. */
  function SetAll(calls: seq<Record>): seq<Record> {
    if calls == [] then [] else WithRecord(SetAll(calls[..|calls| - 1]), calls[|calls| - 1])
  }

  /** Built by `cr_repomd_set_record` from typed records, a list has pairwise distinct types, and it holds
      the last record set of each type. */
  lemma {:induction false} SetAllKeepsLast(calls: seq<Record>, r: Record)
    requires forall c :: c in calls ==> c.kind.Some?
    ensures DistinctKinds(SetAll(calls))
    ensures r in SetAll(calls) <==> exists i :: IsLastOfKind(calls, i, r)
  {
    if calls != [] {
      var n := |calls| - 1;
      assert calls == calls[..n] + [calls[n]];
      SetAllKeepsLast(calls[..n], r);
      SetRecordKeepsDistinctIff(SetAll(calls[..n]), calls[n]);
      SetRecordReplaces(SetAll(calls[..n]), calls[n], r);
      LastOfKindStep(calls, r);
    }
  }

  ghost predicate IsLastOfKind(calls: seq<Record>, i: int, r: Record) {
    0 <= i < |calls| && calls[i] == r && forall j :: i < j < |calls| ==> calls[j].kind != r.kind
  }

  lemma LastOfKindStep(calls: seq<Record>, r: Record)
    requires calls != []
    ensures var n := |calls| - 1;
      (exists i :: IsLastOfKind(calls, i, r))
      <==> r == calls[n] || (r.kind != calls[n].kind && exists i :: IsLastOfKind(calls[..n], i, r))
  {
    var n := |calls| - 1;
    if r == calls[n] {
      assert IsLastOfKind(calls, n, r);
    }
    if i :| IsLastOfKind(calls, i, r) && i < n {
      assert IsLastOfKind(calls[..n], i, r);
    }
    if i :| r.kind != calls[n].kind && IsLastOfKind(calls[..n], i, r) {
      assert IsLastOfKind(calls, i, r);
    }
  }

  // ---------------------------------------------------------------- comparing lists

  /** Equally long, without duplicates, and contained: the same elements. */
  lemma {:induction false} ContainedIsPermutation<T>(xs: seq<T>, ys: seq<T>)
    requires |xs| == |ys| && NoDuplicates(xs)
    requires forall i :: 0 <= i < |xs| ==> xs[i] in ys
    ensures multiset(xs) == multiset(ys)
  {
    if xs != [] {
      var j :| 0 <= j < |ys| && ys[j] == xs[0];
      var rest := RemoveAt(ys, j);
      RemoveAtMultiset(ys, j);
      forall i | 0 <= i < |xs[1..]|
        ensures xs[1..][i] in rest
      {
        OthersRemain(ys, j, xs[i + 1]);
      }
      ContainedIsPermutation(xs[1..], rest);
      assert xs == [xs[0]] + xs[1..];
    }
  }

  lemma OthersRemain<T>(ys: seq<T>, j: nat, x: T)
    requires j < |ys| && x in ys && x != ys[j]
    ensures x in RemoveAt(ys, j)
  {
    RemoveAtMultiset(ys, j);
    assert x in multiset(ys);
    assert x in multiset(RemoveAt(ys, j));
  }

  lemma PermutationIsContained<T>(xs: seq<T>, ys: seq<T>)
    requires multiset(xs) == multiset(ys)
    ensures |xs| == |ys|
    ensures forall i :: 0 <= i < |xs| ==> xs[i] in ys
  {
    SameLength(xs, ys);
    SameMembers(xs, ys);
  }

  /** The comparison `same` is equality of keys. */
  ghost predicate Compares<T(!new), K>(same: (T, T) -> bool, key: T -> K) {
    forall x, y :: same(x, y) <==> key(x) == key(y)
  }

  lemma ScanMeaning<T(!new), K>(xs: seq<T>, ys: seq<T>, same: (T, T) -> bool, key: T -> K)
    requires Compares(same, key)
    ensures Contained(xs, ys, same)
      <==> |xs| == |ys| && forall i :: 0 <= i < |xs| ==> Mapped(xs, key)[i] in Mapped(ys, key)
  {
    forall i | 0 <= i < |xs|
      ensures Found(xs[i], ys, same) <==> Mapped(xs, key)[i] in Mapped(ys, key)
    {
      if Found(xs[i], ys, same) {
        var j :| 0 <= j < |ys| && same(xs[i], ys[j]);
        assert Mapped(xs, key)[i] == Mapped(ys, key)[j];
      }
      if Mapped(xs, key)[i] in Mapped(ys, key) {
        var j :| 0 <= j < |ys| && Mapped(ys, key)[j] == Mapped(xs, key)[i];
        assert same(xs[i], ys[j]);
      }
    }
  }

  /** Without duplicates in the first list the one-way scan is an equality: equal lengths force a bijection. */
  lemma ScanIsEquality<T(!new), K>(xs: seq<T>, ys: seq<T>, same: (T, T) -> bool, key: T -> K)
    requires Compares(same, key) && NoDuplicates(Mapped(xs, key))
    ensures Contained(xs, ys, same) <==> multiset(Mapped(xs, key)) == multiset(Mapped(ys, key))
  {
    ScanMeaning(xs, ys, same, key);
    if Contained(xs, ys, same) {
      ContainedIsPermutation(Mapped(xs, key), Mapped(ys, key));
    }
    if multiset(Mapped(xs, key)) == multiset(Mapped(ys, key)) {
      PermutationIsContained(Mapped(xs, key), Mapped(ys, key));
    }
  }

  /** An element listed twice hides a stranger in the second list. */
  lemma RepeatIsNotNoticed<T(!new), K>(xs: seq<T>, same: (T, T) -> bool, key: T -> K, stranger: T)
    returns (ys: seq<T>)
    requires Compares(same, key) && !NoDuplicates(Mapped(xs, key)) && key(stranger) !in Mapped(xs, key)
    ensures Contained(xs, ys, same) && multiset(Mapped(xs, key)) != multiset(Mapped(ys, key))
  {
    var i, j :| 0 <= i < j < |xs| && Mapped(xs, key)[i] == Mapped(xs, key)[j];
    ys := xs[j := stranger];
    forall k | 0 <= k < |xs|
      ensures Found(xs[k], ys, same)
    {
      assert same(xs[k], ys[if k == j then i else k]);
    }
    StrangerMeansDifferent(Mapped(ys, key), j, Mapped(xs, key));
  }

  lemma StrangerMeansDifferent<T>(xs: seq<T>, j: nat, ys: seq<T>)
    requires j < |xs| && xs[j] !in ys
    ensures multiset(ys) != multiset(xs)
  {
    assert xs[j] in multiset(xs) && xs[j] !in multiset(ys);
  }

  lemma ScanIsReflexive<T(!new), K>(xs: seq<T>, same: (T, T) -> bool, key: T -> K)
    requires Compares(same, key)
    ensures Contained(xs, xs, same)
  {
    forall k | 0 <= k < |xs|
      ensures Found(xs[k], xs, same)
    {
      assert same(xs[k], xs[k]);
    }
  }

  // ---------------------------------------------------------------- records

  lemma RecordsCompare()
    ensures Compares(Matches, Compared)
  {
  }

  /** The same records up to order and fields that are not compared. */
  ghost predicate SameRecords(a: seq<Record>, b: seq<Record>) {
    multiset(AllCompared(a)) == multiset(AllCompared(b))
  }

  lemma KindsAreCompared(a: seq<Record>)
    ensures DistinctKinds(AllCompared(a)) <==> DistinctKinds(a)
    ensures DistinctKinds(a) ==> NoDuplicates(AllCompared(a))
  {
    if DistinctKinds(AllCompared(a)) {
      forall i, j | 0 <= i < j < |a|
        ensures a[i].kind != a[j].kind
      {
        assert AllCompared(a)[i].kind != AllCompared(a)[j].kind;
      }
    }
  }

  /** The one-way scan over records with distinct types is an equality: equal lengths force a bijection on
      all compared fields. */
  lemma RecordScanIsEquality(a: seq<Record>, b: seq<Record>)
    requires DistinctKinds(a)
    ensures Contained(a, b, Matches) <==> SameRecords(a, b)
  {
    RecordsCompare();
    KindsAreCompared(a);
    ScanIsEquality(a, b, Matches, Compared);
  }

  lemma KindsFollowPermutation(xs: seq<Record>, ys: seq<Record>)
    requires multiset(xs) == multiset(ys) && DistinctKinds(xs)
    ensures DistinctKinds(ys)
  {
    PermutationIsContained(ys, xs);
    forall i, j | 0 <= i < j < |ys|
      ensures ys[i].kind != ys[j].kind
    {
      var k :| 0 <= k < |xs| && xs[k] == ys[i];
      var l :| 0 <= l < |xs| && xs[l] == ys[j];
      if ys[i] == ys[j] {
        TwiceMeansDuplicate(ys, i, j);
        NoDuplicatesCount(xs, ys[i]);
      }
    }
  }

  /** So the comparison of two repomd files is symmetric in its records as soon as one list has distinct types. */
  lemma RecordScanIsSymmetric(a: seq<Record>, b: seq<Record>)
    requires DistinctKinds(a) && Contained(a, b, Matches)
    ensures DistinctKinds(b) && Contained(b, a, Matches)
  {
    RecordScanIsEquality(a, b);
    KindsAreCompared(a);
    KindsFollowPermutation(AllCompared(a), AllCompared(b));
    KindsAreCompared(b);
    RecordScanIsEquality(b, a);
  }

  // ---------------------------------------------------------------- the whole comparison

  /** Everything that is compared is equal, up to the order of the lists. */
  ghost predicate SameUpToOrder(a: View, b: View) {
    && a.contenthash == b.contenthash
    && a.contenthashType == b.contenthashType
    && multiset(a.repoTags) == multiset(b.repoTags)
    && multiset(a.contentTags) == multiset(b.contentTags)
    && multiset(a.distroTags) == multiset(b.distroTags)
    && SameRecords(a.records, b.records)
  }

  /** Nothing is listed twice: no tag, and no two records that agree on all compared fields. */
  predicate ListedOnce(a: View) {
    && NoDuplicates(a.repoTags)
    && NoDuplicates(a.contentTags)
    && NoDuplicates(a.distroTags)
    && NoDuplicates(AllCompared(a.records))
  }

  /** Whatever it is compared with, the comparison accepts only what is the same up to order. */
  ghost predicate ComparisonIsExact(a: View) {
    forall b :: SameRepomd(a, b) ==> SameUpToOrder(a, b)
  }

  function Itself<T>(x: T): T {
    x
  }

  lemma KeysAreThemselves<T>(xs: seq<T>)
    ensures Mapped(xs, Itself) == xs
  {
  }

  lemma TagsCompare()
    ensures Compares(SameTag, Itself)
    ensures Compares(SameDistroTag, Itself)
  {
  }

  /** When the first repomd lists nothing twice, the comparison is equality up to order. */
  lemma CompareIsEqualityUpToOrder(a: View, b: View)
    requires ListedOnce(a)
    ensures SameRepomd(a, b) <==> SameUpToOrder(a, b)
  {
    TagsCompare();
    RecordsCompare();
    KeysAreThemselves(a.repoTags);
    KeysAreThemselves(b.repoTags);
    KeysAreThemselves(a.contentTags);
    KeysAreThemselves(b.contentTags);
    KeysAreThemselves(a.distroTags);
    KeysAreThemselves(b.distroTags);
    ScanIsEquality(a.repoTags, b.repoTags, SameTag, Itself);
    ScanIsEquality(a.contentTags, b.contentTags, SameTag, Itself);
    ScanIsEquality(a.distroTags, b.distroTags, SameDistroTag, Itself);
    ScanIsEquality(a.records, b.records, Matches, Compared);
  }

  lemma CompareIsReflexive(a: View)
    ensures SameRepomd(a, a)
  {
    TagsCompare();
    RecordsCompare();
    ScanIsReflexive(a.repoTags, SameTag, Itself);
    ScanIsReflexive(a.contentTags, SameTag, Itself);
    ScanIsReflexive(a.distroTags, SameDistroTag, Itself);
    ScanIsReflexive(a.records, Matches, Compared);
  }

  /** A tag longer than all of the list. */
  function NewTag(tags: seq<Option<string>>): (tag: string)
    ensures Some(tag) !in tags
    ensures forall i :: 0 <= i < |tags| && tags[i].Some? ==> |tags[i].value| < |tag|
  {
    if tags == [] then ""
    else
      var rest := NewTag(tags[1..]);
      assert forall i :: 0 < i < |tags| ==> tags[i] == tags[1..][i - 1];
      if tags[0].Some? && |rest| <= |tags[0].value| then tags[0].value + "x" else rest + "x"
  }

  /** A size that no record of the list has. */
  function NewSize(a: seq<Record>): (size: int)
    ensures forall i :: 0 <= i < |a| ==> a[i].size < size
  {
    if a == [] then 0
    else
      var rest := NewSize(a[1..]);
      assert forall i :: 0 < i < |a| ==> a[i] == a[1..][i - 1];
      if a[0].size < rest then rest else a[0].size + 1
  }

  lemma RepeatedRepoTag(a: View)
    requires !NoDuplicates(a.repoTags)
    ensures !ComparisonIsExact(a)
  {
    TagsCompare();
    KeysAreThemselves(a.repoTags);
    var tags := RepeatIsNotNoticed(a.repoTags, SameTag, Itself, Some(NewTag(a.repoTags)));
    KeysAreThemselves(tags);
    CompareIsReflexive(a);
    assert SameRepomd(a, a.(repoTags := tags));
  }

  lemma RepeatedContentTag(a: View)
    requires !NoDuplicates(a.contentTags)
    ensures !ComparisonIsExact(a)
  {
    TagsCompare();
    KeysAreThemselves(a.contentTags);
    var tags := RepeatIsNotNoticed(a.contentTags, SameTag, Itself, Some(NewTag(a.contentTags)));
    KeysAreThemselves(tags);
    CompareIsReflexive(a);
    assert SameRepomd(a, a.(contentTags := tags));
  }

  lemma RepeatedDistroTag(a: View)
    requires !NoDuplicates(a.distroTags)
    ensures !ComparisonIsExact(a)
  {
    var vals := Mapped(a.distroTags, (t: DistroTag) => t.val);
    var stranger := DistroTag(None, Some(NewTag(vals)));
    assert stranger !in a.distroTags by {
      assert forall i :: 0 <= i < |a.distroTags| ==> vals[i] == a.distroTags[i].val && vals[i] in vals;
    }
    TagsCompare();
    KeysAreThemselves(a.distroTags);
    var tags := RepeatIsNotNoticed(a.distroTags, SameDistroTag, Itself, stranger);
    KeysAreThemselves(tags);
    CompareIsReflexive(a);
    assert SameRepomd(a, a.(distroTags := tags));
  }

  lemma RepeatedRecord(a: View)
    requires !NoDuplicates(AllCompared(a.records))
    ensures !ComparisonIsExact(a)
  {
    var stranger := a.records[0].(size := NewSize(a.records));
    NewSizeIsStrange(a.records, stranger);
    RecordsCompare();
    var records := RepeatIsNotNoticed(a.records, Matches, Compared, stranger);
    OtherRecords(a, records);
  }

  lemma NewSizeIsStrange(records: seq<Record>, stranger: Record)
    requires stranger.size == NewSize(records)
    ensures Compared(stranger) !in AllCompared(records)
  {
  }

  lemma OtherRecords(a: View, records: seq<Record>)
    requires Contained(a.records, records, Matches) && !SameRecords(a.records, records)
    ensures !ComparisonIsExact(a)
  {
    CompareIsReflexive(a);
    assert SameRepomd(a, a.(records := records));
  }

  /** For repomd files of any origin: the comparison is exact if and only if the first lists nothing twice. */
  lemma ComparisonIsExactIff(a: View)
    ensures ComparisonIsExact(a) <==> ListedOnce(a)
  {
    if ListedOnce(a) {
      forall b | SameRepomd(a, b)
        ensures SameUpToOrder(a, b)
      {
        CompareIsEqualityUpToOrder(a, b);
      }
    } else if !NoDuplicates(a.repoTags) {
      RepeatedRepoTag(a);
    } else if !NoDuplicates(a.contentTags) {
      RepeatedContentTag(a);
    } else if !NoDuplicates(a.distroTags) {
      RepeatedDistroTag(a);
    } else {
      RepeatedRecord(a);
    }
  }

  /** A repomd as `cr_repomd_set_record` builds it, with tags listed once, is compared exactly. */
  lemma DistinctTypesAreCompared(a: View)
    requires NoDuplicates(a.repoTags) && NoDuplicates(a.contentTags) && NoDuplicates(a.distroTags)
    requires DistinctKinds(a.records)
    ensures ComparisonIsExact(a)
  {
    KindsAreCompared(a.records);
    ComparisonIsExactIff(a);
  }

  /** One tag listed twice makes the comparison one-way. */
  lemma TagScanIsNotSymmetric(a: View, b: View)
    requires a == View(None, None, [Some("x"), Some("x")], [], [], [])
    requires b == View(None, None, [Some("x"), Some("y")], [], [], [])
    ensures SameRepomd(a, b) && !SameRepomd(b, a)
  {
    assert SameTag(a.repoTags[0], b.repoTags[0]) && SameTag(a.repoTags[1], b.repoTags[0]);
    assert !Found(b.repoTags[1], a.repoTags, SameTag);
  }

  // ---------------------------------------------------------------- sorting

  lemma RecordCmpIsPreorder()
    ensures Preorder(RecordCmp)
  {
    forall a: Record, b: Record, c: Record
      ensures RecordCmp(a, b) <= 0 && RecordCmp(b, c) <= 0 ==> RecordCmp(a, c) <= 0
      ensures RecordCmp(a, b) < 0 <==> RecordCmp(b, a) > 0
    {
      RecordCmpIsTotalOrder(a, b, c);
    }
  }

  lemma SortRecordsSorts(records: seq<Record>)
    ensures Sorted(RecordCmp, SortRecords(records))
    ensures multiset(SortRecords(records)) == multiset(records)
  {
    RecordCmpIsPreorder();
    SortSorts(RecordCmp, records);
  }

  lemma SortedIsInOrder(records: seq<Record>)
    requires Sorted(RecordCmp, records)
    ensures forall i, j :: 0 <= i < j < |records| ==> !RecordBefore(records[j], records[i])
  {
    forall i, j | 0 <= i < j < |records|
      ensures !RecordBefore(records[j], records[i])
    {
      RecordCmpIsTotalOrder(records[i], records[j], records[i]);
      RecordCmpMeaning(records[j], records[i]);
    }
  }

  lemma OneOfAKind(xs: seq<Record>, a: Record, b: Record)
    requires DistinctKinds(xs) && a in xs && b in xs && a.kind == b.kind
    ensures a == b
  {
  }

  /** Two sorted lists of the same records with distinct types are the same list. */
  lemma RecordOrderIsUnique(xs: seq<Record>, ys: seq<Record>)
    requires multiset(xs) == multiset(ys) && DistinctKinds(xs)
    requires Sorted(RecordCmp, xs) && Sorted(RecordCmp, ys)
    ensures xs == ys
  {
    RecordCmpIsPreorder();
    forall i, j | 0 <= i < |xs| && 0 <= j < |xs| && RecordCmp(xs[i], xs[j]) == 0
      ensures xs[i] == xs[j]
    {
      RecordCmpIsTotalOrder(xs[i], xs[j], xs[j]);
      OneOfAKind(xs, xs[i], xs[j]);
    }
    SortedIsUnique(RecordCmp, xs, ys);
  }

  lemma ComparedStaysSorted(a: seq<Record>)
    requires Sorted(RecordCmp, a)
    ensures Sorted(RecordCmp, AllCompared(a))
  {
    forall i, j | 0 <= i < j < |a|
      ensures RecordCmp(AllCompared(a)[i], AllCompared(a)[j]) <= 0
    {
      assert RecordCmp(a[i], a[j]) <= 0;
    }
  }

  /** Sorting two record lists that compare equal writes the same records in the same order. */
  lemma SortingMakesEqualListsIdentical(a: seq<Record>, b: seq<Record>)
    requires DistinctKinds(a)
    ensures Contained(a, b, Matches) <==> AllCompared(SortRecords(a)) == AllCompared(SortRecords(b))
  {
    var a', b' := SortRecords(a), SortRecords(b);
    SortRecordsSorts(a);
    SortRecordsSorts(b);
    MappedFollows(a, a', Compared);
    MappedFollows(b, b', Compared);
    RecordScanIsEquality(a, b);
    if Contained(a, b, Matches) {
      KindsAreCompared(a);
      KindsFollowPermutation(AllCompared(a), AllCompared(a'));
      ComparedStaysSorted(a');
      ComparedStaysSorted(b');
      RecordOrderIsUnique(AllCompared(a'), AllCompared(b'));
    }
  }
}
