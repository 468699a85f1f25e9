/** `strcmp` and `g_strcmp0`: byte-wise lexicographic order, with NULL before every string. */
module Strings {
  import opened Basics

  function CompareChars(a: string, b: string): (c: int)
    ensures c == -1 || c == 0 || c == 1
    ensures c == 0 <==> a == b
  {
    if a == [] || b == [] then (if a == b then 0 else if a == [] then -1 else 1)
    else if a[0] < b[0] then -1
    else if a[0] > b[0] then 1
    else assert a == [a[0]] + a[1..] && b == [b[0]] + b[1..]; CompareChars(a[1..], b[1..])
  }

  /** g_strcmp0 */
  function Compare0(a: Option<string>, b: Option<string>): (c: int)
    ensures c == -1 || c == 0 || c == 1
    ensures c == 0 <==> a == b
  {
    if a == b then 0 else if a.None? then -1 else if b.None? then 1 else CompareChars(a.value, b.value)
  }

  lemma {:induction false} CompareCharsFlips(a: string, b: string)
    ensures CompareChars(b, a) == -CompareChars(a, b)
  {
    if a != [] && b != [] && a[0] == b[0] {
      CompareCharsFlips(a[1..], b[1..]);
    }
  }

  lemma {:induction false} CompareCharsTransitive(a: string, b: string, c: string)
    requires CompareChars(a, b) <= 0 && CompareChars(b, c) <= 0
    ensures CompareChars(a, c) <= 0
  {
    if a != [] && b != [] && c != [] && a[0] == b[0] == c[0] {
      CompareCharsTransitive(a[1..], b[1..], c[1..]);
    }
  }

  /** g_strcmp0 is a total order on strings and NULL. */
  lemma Compare0IsTotalOrder(a: Option<string>, b: Option<string>, c: Option<string>)
    ensures Compare0(b, a) == -Compare0(a, b)
    ensures Compare0(a, b) <= 0 && Compare0(b, c) <= 0 ==> Compare0(a, c) <= 0
  {
    if a.Some? && b.Some? {
      CompareCharsFlips(a.value, b.value);
      if c.Some? && Compare0(a, b) <= 0 && Compare0(b, c) <= 0 {
        CompareCharsTransitive(a.value, b.value, c.value);
      }
    }
  }

  // ---------------------------------------------------------------- which sign means what

  /** `a` stands before `b` in a dictionary: it is the beginning of `b`, or has the smaller character where the
      two first differ. */
  ghost predicate Precedes(a: string, b: string) {
    exists k: nat :: k <= |a| && k <= |b| && a[..k] == b[..k] && k < |b| && (k == |a| || (k < |a| && a[k] < b[k]))
  }

  lemma {:induction false} NegativeIsPrecedes(a: string, b: string)
    requires CompareChars(a, b) < 0
    ensures Precedes(a, b)
  {
    if a == [] || b == [] || a[0] != b[0] {
      assert a[..0] == b[..0];
    } else {
      NegativeIsPrecedes(a[1..], b[1..]);
      var k: nat :| k <= |a[1..]| && k <= |b[1..]| && a[1..][..k] == b[1..][..k] && k < |b[1..]|
        && (k == |a[1..]| || (k < |a[1..]| && a[1..][k] < b[1..][k]));
      assert a[..k + 1] == [a[0]] + a[1..][..k] && b[..k + 1] == [b[0]] + b[1..][..k];
    }
  }

  lemma {:induction false} PrecedesIsNegative(a: string, b: string, k: nat)
    requires k <= |a| && k < |b| && a[..k] == b[..k] && (k == |a| || a[k] < b[k])
    ensures CompareChars(a, b) < 0
  {
    if k > 0 {
      assert a[..k][0] == b[..k][0];
      assert a[1..][..k - 1] == a[..k][1..] && b[1..][..k - 1] == b[..k][1..];
      PrecedesIsNegative(a[1..], b[1..], k - 1);
    }
  }

  /** In the dictionary, with NULL before all strings. */
  ghost predicate StandsBefore(a: Option<string>, b: Option<string>) {
    (a.None? && b.Some?) || (a.Some? && b.Some? && Precedes(a.value, b.value))
  }

  /** g_strcmp0 is negative iff the first string stands before the second, positive iff it stands behind. */
  lemma Compare0Meaning(a: Option<string>, b: Option<string>)
    ensures Compare0(a, b) < 0 <==> StandsBefore(a, b)
    ensures Compare0(a, b) > 0 <==> StandsBefore(b, a)
  {
    if a.Some? && b.Some? {
      CharsMeaning(a.value, b.value);
      CharsMeaning(b.value, a.value);
      CompareCharsFlips(a.value, b.value);
    }
  }

  lemma CharsMeaning(a: string, b: string)
    ensures CompareChars(a, b) < 0 <==> Precedes(a, b)
  {
    if CompareChars(a, b) < 0 {
      NegativeIsPrecedes(a, b);
    }
    if Precedes(a, b) {
      var k: nat :| k <= |a| && k <= |b| && a[..k] == b[..k] && k < |b| && (k == |a| || (k < |a| && a[k] < b[k]));
      PrecedesIsNegative(a, b, k);
    }
  }
}
