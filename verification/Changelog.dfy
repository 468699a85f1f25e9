/** The changelog loop of `cr_package_from_header` (src/parsehdr.c): at most `limit` entries are taken from the
    header, newest first, and equal dates are pushed apart by one second. */
module Changelog {
  import opened Basics

  datatype Change = Change(author: string, date: int, text: string)

  /** The bumping loop: from the second entry on, as long as dates are the expected consecutive ones. The
      counter `tmp` is a C int, taken to wrap around when it is incremented past the largest one. */
  function Bump(list: seq<Change>, tmp: int): seq<Change> {
    if list == [] || list[0].date != tmp then list
    else [list[0].(date := list[0].date + 1)] + Bump(list[1..], ToInt32(tmp + 1))
  }

  /** One turn of the loop: list so far (oldest first) and `last_time`. */
  function Push(list: seq<Change>, lastTime: int, c: Change): (seq<Change>, int) {
    if lastTime == c.date then ([c] + Bump(list, ToInt32(c.date)), lastTime)
    else ([c] + list, c.date)
  }

  /** The loop over the first `n` header entries. */
  function Build(header: seq<Change>, n: nat): (seq<Change>, int)
    requires n <= |header|
  {
    if n == 0 then ([], 0)
    else
      var (list, lastTime) := Build(header, n - 1);
      Push(list, lastTime, header[n - 1])
  }

  /** How many entries are taken: all of them when the limit is -1, none when it is another negative number. */
  function Taken(count: nat, limit: int): nat {
    if limit == -1 then count else if limit <= 0 then 0 else if limit < count then limit else count
  }

  // ---------------------------------------------------------------- the loop itself

  method BuildChangelogs(header: seq<Change>, changelogLimit: int) returns (changelogs: seq<Change>)
    ensures changelogs == Build(header, Taken(|header|, changelogLimit)).0
  {
    changelogs := [];
    var lastTime := 0;
    var limit := changelogLimit;
    var i := 0;
    while i < |header| && (limit > 0 || limit == -1)
      invariant i <= |header|
      invariant (changelogs, lastTime) == Build(header, i)
      invariant changelogLimit == -1 ==> limit == -1
      invariant changelogLimit != -1 ==> limit == changelogLimit - i && (i > 0 ==> limit >= 0)
      decreases |header| - i
    {
      var time := header[i].date;
      ghost var before := changelogs;
      changelogs := [header[i]] + changelogs;
      if limit != -1 {
        limit := limit - 1;
      }
      if lastTime == time {
        var tmpTime := ToInt32(time);
        var previous := 1;
        ghost var done, rest := [header[i]], before;
        while previous < |changelogs| && changelogs[previous].date == tmpTime
          invariant Split(changelogs, done, rest, previous)
          invariant done + Bump(rest, tmpTime) == [header[i]] + Bump(before, ToInt32(time))
          decreases |rest|
        {
          var c := changelogs[previous];
          BumpStep(changelogs, done, rest, previous, tmpTime);
          changelogs := changelogs[previous := c.(date := c.date + 1)];
          done, rest := done + [c.(date := c.date + 1)], rest[1..];
          tmpTime := ToInt32(tmpTime + 1);
          previous := previous + 1;
        }
        assert Bump(rest, tmpTime) == rest;
      } else {
        lastTime := time;
      }
      i := i + 1;
    }
  }

  /** The list is `done`, of `previous` entries, followed by `rest`. */
  ghost predicate Split(list: seq<Change>, done: seq<Change>, rest: seq<Change>, previous: nat) {
    list == done + rest && |done| == previous
  }

  lemma BumpStep(list: seq<Change>, done: seq<Change>, rest: seq<Change>, previous: nat, tmp: int)
    requires Split(list, done, rest, previous) && previous < |list| && list[previous].date == tmp
    ensures rest != []
    ensures var c' := list[previous].(date := tmp + 1);
      && Split(list[previous := c'], done + [c'], rest[1..], previous + 1)
      && done + [c'] + Bump(rest[1..], ToInt32(tmp + 1)) == done + Bump(rest, tmp)
  {
    assert list[previous] == rest[0];
    var c' := list[previous].(date := tmp + 1);
    assert Bump(rest, tmp) == [c'] + Bump(rest[1..], ToInt32(tmp + 1));
  }

  /** How many entries the counter goes along with. */
  function RunLength(list: seq<Change>, tmp: int): (n: nat)
    ensures n <= |list|
  {
    if list == [] || list[0].date != tmp then 0 else 1 + RunLength(list[1..], ToInt32(tmp + 1))
  }

  /** Their dates are those that an int counts from `tmp` on, and the next date is not. */
  lemma {:induction false} RunLengthIs(list: seq<Change>, tmp: int, i: nat)
    requires ToInt32(tmp) == tmp && i < |list|
    ensures i < RunLength(list, tmp) ==> list[i].date == ToInt32(tmp + i)
    ensures i == RunLength(list, tmp) ==> list[i].date != ToInt32(tmp + i)
  {
    if list[0].date == tmp && i > 0 {
      RunLengthIs(list[1..], ToInt32(tmp + 1), i - 1);
      WrapAgain(tmp + 1, i - 1);
      assert list[1..][i - 1] == list[i];
    }
  }

  lemma WrapAgain(x: int, i: int)
    ensures ToInt32(ToInt32(x) + i) == ToInt32(x + i)
  {
  }

  /** For any list: bumping raises by one the entries that the counter goes along with, and no others. */
  lemma {:induction false} BumpMeaning(list: seq<Change>, tmp: int, i: nat)
    requires i < |list|
    ensures |Bump(list, tmp)| == |list|
    ensures Bump(list, tmp)[i] == if i < RunLength(list, tmp) then list[i].(date := list[i].date + 1) else list[i]
  {
    BumpLength(list, tmp);
    if list[0].date == tmp && i > 0 {
      BumpMeaning(list[1..], ToInt32(tmp + 1), i - 1);
    }
  }

  // ---------------------------------------------------------------- what the loop builds

  predicate StrictlyIncreasing(list: seq<Change>) {
    forall i, j :: 0 <= i < j < |list| ==> list[i].date < list[j].date
  }

  predicate NonIncreasing(header: seq<Change>, n: nat)
    requires n <= |header|
  {
    forall i, j :: 0 <= i < j < n ==> header[i].date >= header[j].date
  }

  // ---------------------------------------------------------------- what the list is meant to be

  const INT_END: int := 0x8000_0000

  /** The earliest strictly increasing dates from `floor` on that are not before the listed ones. */
  function Raise(list: seq<Change>, floor: int): seq<Change> {
    if list == [] then []
    else
      var date := if list[0].date < floor then floor else list[0].date;
      [list[0].(date := date)] + Raise(list[1..], date + 1)
  }

  /** The first `n` header entries, the last of them first. */
  function LastFirst(header: seq<Change>, n: nat): seq<Change>
    requires n <= |header|
  {
    Reversed(header[..n])
  }

  /** The last entry taken keeps its date, and every older one is moved to the first later date that is free. */
  function Spread(header: seq<Change>, n: nat): seq<Change>
    requires n <= |header|
  {
    if n == 0 then [] else Raise(LastFirst(header, n), header[n - 1].date)
  }

  /** Entry `i` repeats the time before it, and the entries up to it crowd all dates from that time to the one
      after the largest int: the k-th last of them is at most k seconds later, for every k on the way. */
  predicate Overruns(header: seq<Change>, i: nat)
    requires 0 < i < |header|
  {
    var time := header[i].date;
    && header[i - 1].date == time
    && (time >= INT_END || (
          var first := i - 1 - (INT_END - time);
          first >= 0 && forall j :: first <= j < i ==> header[j].date <= time + (i - 1 - j)))
  }

  /** No entry below `n` repeats a time that does not fit an int, or that is too crowded. */
  predicate NoOverrun(header: seq<Change>, n: nat)
    requires n <= |header|
  {
    forall i :: 0 < i < n ==> !Overruns(header, i) && (header[i].date == header[i - 1].date ==> header[i].date >= -INT_END)
  }

  // ---------------------------------------------------------------- raising

  lemma TailIncreases(list: seq<Change>)
    requires list != [] && StrictlyIncreasing(list)
    ensures StrictlyIncreasing(list[1..])
    ensures |list| > 1 ==> list[0].date < list[1].date
  {
    assert forall i :: 0 <= i < |list| - 1 ==> list[1..][i] == list[i + 1];
  }

  lemma StaysIncreasing(first: Change, rest: seq<Change>)
    requires StrictlyIncreasing(rest) && forall i :: 0 <= i < |rest| ==> first.date < rest[i].date
    ensures StrictlyIncreasing([first] + rest)
  {
  }

  lemma {:induction false} RaiseKeeps(list: seq<Change>, floor: int)
    ensures |Raise(list, floor)| == |list|
    ensures StrictlyIncreasing(Raise(list, floor))
    ensures forall i :: 0 <= i < |list| ==> RaisedFrom(Raise(list, floor)[i], list[i], floor + i)
  {
    if list != [] {
      var date := if list[0].date < floor then floor else list[0].date;
      RaiseKeeps(list[1..], date + 1);
      RaiseFirst(list, floor, date, Raise(list[1..], date + 1));
    }
  }

  lemma RaiseFirst(list: seq<Change>, floor: int, date: int, rest: seq<Change>)
    requires list != [] && |rest| == |list| - 1 && StrictlyIncreasing(rest)
    requires date >= floor && date >= list[0].date
    requires forall i :: 0 <= i < |rest| ==> RaisedFrom(rest[i], list[1..][i], date + 1 + i)
    ensures var raised := [list[0].(date := date)] + rest;
      && StrictlyIncreasing(raised)
      && forall i :: 0 <= i < |list| ==> RaisedFrom(raised[i], list[i], floor + i)
  {
    var first := list[0].(date := date);
    forall i | 0 <= i < |rest|
      ensures first.date < rest[i].date && RaisedFrom(rest[i], list[i + 1], floor + i + 1)
    {
      assert RaisedFrom(rest[i], list[1..][i], date + 1 + i);
    }
    StaysIncreasing(first, rest);
  }

  /** The entry, moved to a date not before its own and not before `floor`. */
  predicate RaisedFrom(raised: Change, original: Change, floor: int) {
    raised == original.(date := raised.date) && raised.date >= floor && raised.date >= original.date
  }

  /** Nothing has to move when the dates are increasing and late enough. */
  lemma {:induction false} RaiseIdle(list: seq<Change>, floor: int)
    requires StrictlyIncreasing(list) && (list != [] ==> floor <= list[0].date)
    ensures Raise(list, floor) == list
  {
    if list != [] {
      TailIncreases(list);
      RaiseIdle(list[1..], list[0].date + 1);
      assert list == [list[0]] + list[1..];
    }
  }

  lemma {:induction false} RaiseTwice(list: seq<Change>, low: int, high: int)
    requires low <= high
    ensures Raise(Raise(list, low), high) == Raise(list, high)
  {
    if list != [] {
      var first, rest := list[0], list[1..];
      RaiseTwice(rest, Later(first.date, low) + 1, Later(first.date, high) + 1);
      RaiseAfter(first, rest, low);
      RaiseAfter(first, rest, high);
      RaiseAfter(first.(date := Later(first.date, low)), Raise(rest, Later(first.date, low) + 1), high);
      assert list == [first] + rest;
    }
  }

  function Later(a: int, b: int): int {
    if a < b then b else a
  }

  lemma RaiseAfter(first: Change, rest: seq<Change>, floor: int)
    ensures Raise([first] + rest, floor)
      == [first.(date := Later(first.date, floor))] + Raise(rest, Later(first.date, floor) + 1)
  {
    assert ([first] + rest)[1..] == rest;
  }

  /** A floor not above the first date makes no difference. */
  lemma RaiseFrom(list: seq<Change>, low: int, high: int)
    requires list != [] && low <= high <= list[0].date
    ensures Raise(list, low) == Raise(list, high)
  {
  }

  /** None of the dates up to the k-th stands above the floor, which rises by one each time. */
  predicate UnderFloor(list: seq<Change>, floor: int, k: nat)
    requires k < |list|
  {
    forall j :: 0 <= j <= k ==> list[j].date <= floor + j
  }

  lemma UnderFloorStep(list: seq<Change>, floor: int, k: nat)
    requires 0 < k < |list|
    ensures UnderFloor(list, floor, k) <==> list[0].date <= floor && UnderFloor(list[1..], floor + 1, k - 1)
  {
    assert forall j :: 0 < j <= k ==> list[1..][j - 1] == list[j];
    assert forall j :: 0 <= j <= k - 1 ==> list[1..][j] == list[j + 1];
  }

  lemma RaiseAt(list: seq<Change>, floor: int, k: nat)
    requires 0 < k < |list|
    ensures |Raise(list, floor)| == |list|
    ensures |Raise(list[1..], Later(list[0].date, floor) + 1)| == |list| - 1
    ensures Raise(list, floor)[k] == Raise(list[1..], Later(list[0].date, floor) + 1)[k - 1]
  {
    RaiseKeeps(list, floor);
  }

  lemma RaiseAtHead(list: seq<Change>, floor: int)
    requires list != []
    ensures |Raise(list, floor)| == |list|
    ensures Raise(list, floor)[0].date == Later(list[0].date, floor)
  {
    RaiseKeeps(list, floor);
  }

  /** The k-th date ends up on the floor iff no date up to it stands above. */
  lemma {:induction false} RaisedToFloor(list: seq<Change>, floor: int, k: nat)
    requires k < |list|
    ensures |Raise(list, floor)| == |list|
    ensures Raise(list, floor)[k].date == floor + k <==> UnderFloor(list, floor, k)
  {
    if k == 0 {
      RaiseAtHead(list, floor);
    } else {
      RaiseAt(list, floor, k);
      UnderFloorStep(list, floor, k);
      if list[0].date <= floor {
        RaisedToFloor(list[1..], floor + 1, k - 1);
      } else {
        StaysAboveFloor(list[1..], list[0].date + 1, k - 1);
      }
    }
  }

  lemma StaysAboveFloor(list: seq<Change>, floor: int, k: nat)
    requires k < |list|
    ensures |Raise(list, floor)| == |list| && Raise(list, floor)[k].date >= floor + k
  {
    RaiseKeeps(list, floor);
    assert RaisedFrom(Raise(list, floor)[k], list[k], floor + k);
  }

  // ---------------------------------------------------------------- bumping

  /** The dates of the list run through to the one after the largest int. */
  predicate RunsOver(list: seq<Change>, tmp: int) {
    tmp < INT_END && INT_END - tmp < |list| && list[INT_END - tmp].date == INT_END
  }

  /** Short of overrunning the int, bumping is raising the list above the date it starts from. */
  lemma {:induction false} BumpIsRaise(list: seq<Change>, tmp: int)
    requires StrictlyIncreasing(list) && (list != [] ==> tmp <= list[0].date)
    requires ToInt32(tmp) == tmp && !RunsOver(list, tmp)
    ensures Bump(list, tmp) == Raise(list, tmp + 1)
  {
    if list != [] && list[0].date == tmp {
      TailRuns(list, tmp);
      if tmp == INT_END - 1 {
        RaiseIdle(list[1..], INT_END + 1);
      } else {
        BumpIsRaise(list[1..], tmp + 1);
      }
    } else {
      RaiseIdle(list, tmp + 1);
    }
  }

  lemma TailRuns(list: seq<Change>, tmp: int)
    requires list != [] && StrictlyIncreasing(list) && list[0].date == tmp < INT_END && !RunsOver(list, tmp)
    ensures StrictlyIncreasing(list[1..]) && !RunsOver(list[1..], tmp + 1)
    ensures |list| > 1 ==> tmp + 1 <= list[1].date
    ensures |list| > 1 && tmp == INT_END - 1 ==> INT_END + 1 <= list[1].date
  {
    assert |list| > 1 ==> list[0].date < list[1].date;
    assert forall i :: 0 <= i < |list| - 1 ==> list[1..][i] == list[i + 1];
  }

  lemma {:induction false} GapsAreWide(list: seq<Change>, i: nat, j: nat)
    requires StrictlyIncreasing(list) && i <= j < |list|
    ensures list[j].date - list[i].date >= j - i
  {
    if i < j {
      GapsAreWide(list, i, j - 1);
    }
  }

  /** Where the run passes the largest int the counter wraps around, and two dates stay equal. */
  lemma {:induction false} OverrunLeavesEqual(list: seq<Change>, tmp: int)
    requires StrictlyIncreasing(list) && ToInt32(tmp) == tmp && RunsOver(list, tmp) && list[0].date == tmp
    ensures |Bump(list, tmp)| == |list|
    ensures !StrictlyIncreasing(Bump(list, tmp))
  {
    BumpLength(list, tmp);
    TailIncreases(list);
    var rest := list[1..];
    var bumped := Bump(rest, ToInt32(tmp + 1));
    BumpLength(rest, ToInt32(tmp + 1));
    assert Bump(list, tmp) == [list[0].(date := tmp + 1)] + bumped;
    if tmp == INT_END - 1 {
      assert bumped[0].date == INT_END;
      assert Bump(list, tmp)[0].date == Bump(list, tmp)[1].date;
    } else {
      GapsAreWide(list, 1, INT_END - tmp);
      OverrunLeavesEqual(rest, tmp + 1);
      EqualInTail(list[0].(date := tmp + 1), bumped);
    }
  }

  lemma EqualInTail(first: Change, rest: seq<Change>)
    requires !StrictlyIncreasing(rest)
    ensures !StrictlyIncreasing([first] + rest)
  {
    var i, j :| 0 <= i < j < |rest| && rest[i].date >= rest[j].date;
    assert ([first] + rest)[i + 1] == rest[i] && ([first] + rest)[j + 1] == rest[j];
  }

  lemma {:induction false} BumpLength(list: seq<Change>, tmp: int)
    ensures |Bump(list, tmp)| == |list|
  {
    if list != [] && list[0].date == tmp {
      BumpLength(list[1..], ToInt32(tmp + 1));
    }
  }

  lemma {:induction false} BuildLength(header: seq<Change>, n: nat)
    requires n <= |header|
    ensures |Build(header, n).0| == n
    ensures n > 0 ==> Build(header, n).0[0] == header[n - 1] && Build(header, n).1 == header[n - 1].date
  {
    if n > 0 {
      BuildLength(header, n - 1);
      var (list, lastTime) := Build(header, n - 1);
      BumpLength(list, ToInt32(header[n - 1].date));
    }
  }

  /** min(count, limit) entries, or all of them without a limit. */
  lemma LengthIsLimited(header: seq<Change>, limit: int)
    ensures |Build(header, Taken(|header|, limit)).0|
      == if limit == -1 then |header| else if limit <= 0 then 0 else if limit < |header| then limit else |header|
  {
    BuildLength(header, Taken(|header|, limit));
  }

  // ---------------------------------------------------------------- what the loop builds

  lemma LastFirstStep(header: seq<Change>, n: nat)
    requires 0 < n <= |header|
    ensures LastFirst(header, n) == [header[n - 1]] + LastFirst(header, n - 1)
    ensures forall k :: 0 <= k < n ==> LastFirst(header, n)[k] == header[n - 1 - k]
  {
  }

  lemma CrowdedIsUnderFloor(header: seq<Change>, i: nat, k: nat)
    requires k < i < |header|
    ensures |LastFirst(header, i)| == i
    ensures UnderFloor(LastFirst(header, i), header[i].date, k)
      <==> forall j :: i - 1 - k <= j < i ==> header[j].date <= header[i].date + (i - 1 - j)
  {
    var list := LastFirst(header, i);
    LastFirstStep(header, i);
    if UnderFloor(list, header[i].date, k) {
      forall j | i - 1 - k <= j < i
        ensures header[j].date <= header[i].date + (i - 1 - j)
      {
        assert list[i - 1 - j] == header[j];
      }
    }
  }

  /** The list that was meant overruns the int at its next repetition iff the header says so. */
  lemma OverrunsIsRunsOver(header: seq<Change>, i: nat)
    requires 0 < i < |header| && header[i].date == header[i - 1].date < INT_END
    ensures Overruns(header, i) <==> RunsOver(Spread(header, i), header[i].date)
  {
    var time := header[i].date;
    var list := LastFirst(header, i);
    LastFirstStep(header, i);
    RaiseKeeps(list, time);
    if INT_END - time < i {
      RaisedToFloor(list, time, INT_END - time);
      CrowdedIsUnderFloor(header, i, INT_END - time);
    }
  }

  /** One turn, from the list that was meant to the list that was meant. */
  lemma PushIsSpread(header: seq<Change>, n: nat)
    requires 0 < n <= |header| && (n > 1 ==> header[n - 1].date <= header[n - 2].date)
    requires n > 1 && header[n - 1].date == header[n - 2].date ==>
      ToInt32(header[n - 1].date) == header[n - 1].date && !RunsOver(Spread(header, n - 1), header[n - 1].date)
    ensures var lastTime := if n == 1 then 0 else header[n - 2].date;
      Push(Spread(header, n - 1), lastTime, header[n - 1]).0 == Spread(header, n)
  {
    var list, c := Spread(header, n - 1), header[n - 1];
    var older := LastFirst(header, n - 1);
    SpreadFirst(header, n);
    if n > 1 {
      LastFirstStep(header, n - 1);
      RaiseKeeps(older, header[n - 2].date);
      if c.date == header[n - 2].date {
        assert RaisedFrom(list[0], older[0], c.date);
        BumpIsRaise(list, c.date);
        RaiseTwice(older, c.date, c.date + 1);
      } else {
        RaiseFrom(older, c.date + 1, header[n - 2].date);
      }
    }
  }

  lemma SpreadFirst(header: seq<Change>, n: nat)
    requires 0 < n <= |header|
    ensures Spread(header, n) == [header[n - 1]] + Raise(LastFirst(header, n - 1), header[n - 1].date + 1)
  {
    LastFirstStep(header, n);
    assert LastFirst(header, n)[1..] == LastFirst(header, n - 1);
  }

  /** With non-increasing times that do not overrun the int the list after every turn is the one that was meant. */
  lemma {:induction false} BuildIsSpread(header: seq<Change>, n: nat)
    requires n <= |header| && NonIncreasing(header, n) && NoOverrun(header, n)
    ensures Build(header, n).0 == Spread(header, n)
  {
    if n > 0 {
      BuildIsSpread(header, n - 1);
      BuildLength(header, n - 1);
      if n > 1 && header[n - 1].date == header[n - 2].date {
        assert !Overruns(header, n - 1);
        OverrunsIsRunsOver(header, n - 1);
      }
      PushIsSpread(header, n);
    }
  }

  /** The header's entry, with its date raised by at most `k`. */
  predicate Raised(c: Change, original: Change, k: int) {
    c == original.(date := c.date) && original.date <= c.date <= original.date + k
  }

  /** With non-increasing header times that do not overrun the int, the list is strictly increasing from head to
      tail after every turn, and the entry taken k turns ago has been raised by at most k. */
  lemma DatesArePushedApart(header: seq<Change>, n: nat)
    requires n <= |header| && NonIncreasing(header, n) && NoOverrun(header, n)
    ensures var list := Build(header, n).0;
      && |list| == n
      && StrictlyIncreasing(list)
      && (forall i :: 0 <= i < n ==> Raised(list[i], header[n - 1 - i], i))
  {
    BuildIsSpread(header, n);
    if n > 0 {
      var older := LastFirst(header, n);
      LastFirstStep(header, n);
      RaiseKeeps(older, header[n - 1].date);
      forall i | 0 <= i < n
        ensures Raised(Spread(header, n)[i], header[n - 1 - i], i)
      {
        assert forall j :: 0 <= j < n ==> older[j] == header[n - 1 - j];
        RaisedByAge(older, header[n - 1].date, i);
      }
    }
  }

  lemma {:induction false} RaisedByAge(list: seq<Change>, floor: int, i: nat)
    requires i < |list| && floor <= list[0].date
    requires forall j, k :: 0 <= j < k < |list| ==> list[j].date <= list[k].date
    ensures |Raise(list, floor)| == |list|
    ensures Raise(list, floor)[i].date <= list[i].date + i
  {
    RaiseKeeps(list, floor);
    if i > 0 {
      RaisedAboveFloor(list[1..], list[0].date + 1, i - 1);
      assert Raise(list, floor)[i] == Raise(list[1..], list[0].date + 1)[i - 1];
      assert forall j :: 0 <= j < |list| - 1 ==> list[1..][j] == list[j + 1];
    }
  }

  /** With dates in order, the i-th ends up at most i above its own date or above the floor. */
  lemma {:induction false} RaisedAboveFloor(list: seq<Change>, floor: int, i: nat)
    requires i < |list|
    requires forall j, k :: 0 <= j < k < |list| ==> list[j].date <= list[k].date
    ensures |Raise(list, floor)| == |list|
    ensures Raise(list, floor)[i].date <= (if list[i].date < floor then floor else list[i].date) + i
  {
    RaiseKeeps(list, floor);
    if i > 0 {
      var date := if list[0].date < floor then floor else list[0].date;
      assert Raise(list, floor)[i] == Raise(list[1..], date + 1)[i - 1];
      assert list[0].date <= list[i].date;
      RaisedAboveFloor(list[1..], date + 1, i - 1);
    }
  }

  // ---------------------------------------------------------------- when it is increasing

  /** After every one of the first `n` turns the list is strictly increasing from head to tail. */
  ghost predicate AlwaysIncreasing(header: seq<Change>, n: nat)
    requires n <= |header|
  {
    forall m: nat :: m <= n ==> StrictlyIncreasing(Build(header, m).0)
  }

  /** Strictly increasing after every turn, if and only if the times taken are non-increasing and repetitions do
      not overrun the int. */
  lemma IncreasingIff(header: seq<Change>, n: nat)
    requires n <= |header|
    ensures AlwaysIncreasing(header, n) <==> NonIncreasing(header, n) && NoOverrun(header, n)
  {
    if NonIncreasing(header, n) && NoOverrun(header, n) {
      forall m: nat | m <= n
        ensures StrictlyIncreasing(Build(header, m).0)
      {
        DatesArePushedApart(header, m);
      }
    }
    if AlwaysIncreasing(header, n) {
      StepsDown(header, n);
    }
  }

  lemma {:induction false} StepsDown(header: seq<Change>, n: nat)
    requires n <= |header| && AlwaysIncreasing(header, n)
    ensures NonIncreasing(header, n) && NoOverrun(header, n)
  {
    if n > 1 {
      StepsDown(header, n - 1);
      BuildLength(header, n);
      BuildLength(header, n - 1);
      var list, list' := Build(header, n - 1).0, Build(header, n).0;
      var time := header[n - 1].date;
      assert StrictlyIncreasing(list) && StrictlyIncreasing(list');
      assert list'[0].date < list'[1].date;
      if time == header[n - 2].date {
        assert list' == [header[n - 1]] + Bump(list, ToInt32(time));
        RepetitionFits(header, n, list);
      } else {
        assert list'[1] == list[0];
      }
    }
  }

  lemma RepetitionFits(header: seq<Change>, n: nat, list: seq<Change>)
    requires 1 < n <= |header| && header[n - 1].date == header[n - 2].date
    requires NonIncreasing(header, n - 1) && NoOverrun(header, n - 1) && list == Build(header, n - 1).0
    requires StrictlyIncreasing([header[n - 1]] + Bump(list, ToInt32(header[n - 1].date)))
    ensures ToInt32(header[n - 1].date) == header[n - 1].date && !Overruns(header, n - 1)
  {
    var time := header[n - 1].date;
    var list' := [header[n - 1]] + Bump(list, ToInt32(time));
    BuildLength(header, n - 1);
    BuildIsSpread(header, n - 1);
    BumpLength(list, ToInt32(time));
    assert list'[0].date < list'[1].date;
    assert ToInt32(time) != time ==> Bump(list, ToInt32(time)) == list;
    assert ToInt32(time) == time;
    OverrunsIsRunsOver(header, n - 1);
    assert StrictlyIncreasing(Bump(list, time)) by {
      assert forall i :: 0 <= i < |list| ==> Bump(list, time)[i] == list'[i + 1];
    }
    LastFirstStep(header, n - 1);
    RaiseKeeps(LastFirst(header, n - 1), time);
    if RunsOver(list, time) {
      OverrunLeavesEqual(list, time);
    }
  }

  // ---------------------------------------------------------------- inputs that fail

  /** Two equal times that do not fit an int stay equal: the counter of the bumping loop is an int. */
  lemma LateDatesStayEqual(time: int, a: Change, b: Change)
    requires time == a.date == b.date && time >= INT_END
    ensures Build([a, b], 2).0 == [b, a]
  {
    assert Build([a, b], 0) == ([], 0);
    assert [a] + [] == [a];
    assert Build([a, b], 1) == Push([], 0, a) == ([a], time);
    assert Build([a, b], 2) == Push([a], time, b);
    assert Bump([a], ToInt32(time)) == [a];
  }

  /** Three times equal to the largest int: the counter wraps around before the third entry is reached. */
  lemma LastDatesStayEqual(a: Change, b: Change, c: Change)
    requires a.date == b.date == c.date == INT_END - 1
    ensures Overruns([a, b, c], 2)
    ensures Build([a, b, c], 3).0 == [c, b.(date := INT_END), a.(date := INT_END)]
  {
    var header := [a, b, c];
    assert Build(header, 0) == ([], 0);
    assert [a] + [] == [a];
    assert Build(header, 1) == Push([], 0, a) == ([a], INT_END - 1);
    var a' := a.(date := INT_END);
    assert Bump([a], INT_END - 1) == [a'] + Bump([a][1..], -INT_END) == [a'];
    assert [b] + [a'] == [b, a'];
    assert Build(header, 2) == Push([a], INT_END - 1, b) == ([b, a'], INT_END - 1);
    var b' := b.(date := INT_END);
    assert [b, a'][1..] == [a'];
    assert Bump([a'], -INT_END) == [a'];
    assert Bump([b, a'], INT_END - 1) == [b'] + Bump([a'], -INT_END) == [b', a'];
    assert Build(header, 3) == Push([b, a'], INT_END - 1, c);
  }
}
