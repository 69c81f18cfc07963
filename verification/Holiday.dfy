/**
The holiday budget (internal/gamification/holiday.go): the most weeks any 52 consecutive
weeks hold.  A week is the number of its Monday.
*/
module Holiday {
  import opened Sorting

  const WINDOW := 52

  /** How many of the entries, repeats counted, fall into the n weeks from `start` on. */
  function Tally(weeks: multiset<int>, start: int, n: nat): nat {
    if n == 0 then 0 else Tally(weeks, start, n - 1) + weeks[start + n - 1]
  }

  /** The largest tally over every possible start of a window. */
  ghost predicate IsMost(weeks: multiset<int>, most: nat) {
    && (forall start :: Tally(weeks, start, 52) <= most)
    && (exists start :: Tally(weeks, start, 52) == most)
  }

  lemma {:induction false} TallyUnion(a: multiset<int>, b: multiset<int>, start: int, n: nat)
    ensures Tally(a + b, start, n) == Tally(a, start, n) + Tally(b, start, n)
  {
    if n > 0 { TallyUnion(a, b, start, n - 1); }
  }

  lemma {:induction false} TallyOne(week: int, start: int, n: nat)
    ensures Tally(multiset{week}, start, n) == if start <= week < start + n then 1 else 0
  {
    if n > 0 { TallyOne(week, start, n - 1); }
  }

  lemma {:induction false} TallyEmpty(start: int, n: nat)
    ensures Tally(multiset{}, start, n) == 0
  {
    if n > 0 { TallyEmpty(start, n - 1); }
  }

  /** Entries all inside the window, and entries all outside it. */
  lemma {:induction false} TallyAllOrNone(s: seq<int>, start: int, n: nat, inside: bool)
    requires forall i | 0 <= i < |s| :: (start <= s[i] < start + n) == inside
    ensures Tally(multiset(s), start, n) == if inside then |s| else 0
  {
    if s == [] {
      TallyEmpty(start, n);
    } else {
      var k := |s| - 1;
      TallyAllOrNone(s[..k], start, n, inside);
      TallyOne(s[k], start, n);
      TallyUnion(multiset(s[..k]), multiset{s[k]}, start, n);
      assert s == s[..k] + [s[k]];
    }
  }

  /** The first index at which ascending entries reach x. */
  function Reach(s: seq<int>, x: int): (r: nat)
    requires Ascending(s)
    ensures r <= |s|
    ensures forall i | 0 <= i < r :: s[i] < x
    ensures forall i | r <= i < |s| :: x <= s[i]
  {
    if s == [] || s[|s| - 1] < x then |s| else Reach(s[..|s| - 1], x)
  }

  ghost predicate Ascending(s: seq<int>) { forall i, j | 0 <= i < j < |s| :: s[i] <= s[j] }

  /** A window's tally is the length of a run of ascending entries that spans less than a window. */
  lemma TallyIsARun(s: seq<int>, start: int)
    requires Ascending(s)
    ensures Tally(multiset(s), start, WINDOW) == Reach(s, start + WINDOW) - Reach(s, start)
  {
    var i, j := Reach(s, start), Reach(s, start + WINDOW);
    assert j < |s| ==> s[j] >= start + WINDOW;
    assert i <= j;
    TallyAllOrNone(s[..i], start, WINDOW, false);
    TallyAllOrNone(s[i..j], start, WINDOW, true);
    TallyAllOrNone(s[j..], start, WINDOW, false);
    TallyUnion(multiset(s[..i]), multiset(s[i..j]), start, WINDOW);
    TallyUnion(multiset(s[..i]) + multiset(s[i..j]), multiset(s[j..]), start, WINDOW);
    assert s == s[..i] + s[i..j] + s[j..];
  }

  predicate Fits(s: seq<int>, i: int, j: int) { 0 <= i <= j < |s| && s[j] - s[i] < WINDOW }

  /** Two-pointer bookkeeping: no run within a window is longer, and one is as long. */
  ghost predicate LongestRun(s: seq<int>, most: nat) {
    && (forall i, j | Fits(s, i, j) :: j - i + 1 <= most)
    && (s != [] ==> exists i, j :: Fits(s, i, j) && j - i + 1 == most)
    && (s == [] ==> most == 0)
  }

  lemma LongestRunIsMost(s: seq<int>, most: nat)
    requires Ascending(s) && LongestRun(s, most)
    ensures IsMost(multiset(s), most)
  {
    forall start ensures Tally(multiset(s), start, WINDOW) <= most {
      TallyIsARun(s, start);
      var i, j := Reach(s, start), Reach(s, start + WINDOW);
      if i < j { assert Fits(s, i, j - 1); }
    }
    if s == [] {
      assert Tally(multiset(s), 0, WINDOW) == most;
    } else {
      var i, j :| Fits(s, i, j) && j - i + 1 == most;
      TallyIsARun(s, s[i]);
      assert Reach(s, s[i]) <= i && j < Reach(s, s[i] + WINDOW);
      assert Tally(multiset(s), s[i], WINDOW) == most;
    }
  }

  /** Moves the left pointer up until it is within a window of the right one. */
  method Advance(sorted: array<int>, from: nat, right: nat) returns (left: nat)
    requires from <= right < sorted.Length
    requires forall i | 0 <= i < from :: sorted[right] - sorted[i] >= WINDOW
    ensures from <= left <= right && sorted[right] - sorted[left] < WINDOW
    ensures forall i | 0 <= i < left :: sorted[right] - sorted[i] >= WINDOW
  {
    left := from;
    while sorted[right] - sorted[left] >= WINDOW
      invariant from <= left <= right
      invariant forall i | 0 <= i < left :: sorted[right] - sorted[i] >= WINDOW
      decreases right - left
    {
      left := left + 1;
    }
  }

  /** The two-pointer scan over the sorted weeks. */
  method Scan(sorted: array<int>) returns (most: nat)
    requires Ascending(sorted[..])
    ensures LongestRun(sorted[..], most)
  {
    most := 0;
    var left := 0;
    for right := 0 to sorted.Length
      invariant 0 <= left <= right
      invariant right < sorted.Length ==> forall i | 0 <= i < left :: sorted[right] - sorted[i] >= WINDOW
      invariant LongestRun(sorted[..right], most)
    {
      left := Advance(sorted, left, right);
      assert sorted[..right + 1][..right] == sorted[..right];
      LongestRunGrows(sorted[..right + 1], right, left, most);
      var count := right - left + 1;
      if count > most {
        most := count;
      }
      assert right + 1 < sorted.Length ==> sorted[..][right] <= sorted[..][right + 1];
    }
    assert sorted[..sorted.Length] == sorted[..];
  }

  method MaxWeeksInWindow(weeks: seq<int>) returns (most: nat)
    ensures IsMost(multiset(weeks), most)
  {
    if |weeks| == 0 {
      LongestRunIsMost([], 0);
      assert weeks == [];
      return 0;
    }
    var sorted := new int[|weeks|](i requires 0 <= i < |weeks| => weeks[i]);
    assert sorted[..] == weeks;
    SortInts(sorted);
    most := Scan(sorted);
    LongestRunIsMost(sorted[..], most);
  }

  lemma LongestRunGrows(s: seq<int>, right: nat, left: nat, most: nat)
    requires |s| == right + 1 && Fits(s, left, right) && LongestRun(s[..right], most)
    requires forall i | 0 <= i < left :: s[right] - s[i] >= WINDOW
    ensures LongestRun(s, if right - left + 1 > most then right - left + 1 else most)
  {
    var t := s[..right];
    forall i, j | Fits(s, i, j)
      ensures j - i + 1 <= if right - left + 1 > most then right - left + 1 else most
    {
      if j < right { assert Fits(t, i, j); }
    }
    if right - left + 1 <= most {
      var i, j :| Fits(t, i, j) && j - i + 1 == most;
      assert Fits(s, i, j);
    }
  }

  /** Nothing but the entries decides the result: not their order. */
  lemma OrderDoesNotMatter(weeks: seq<int>, shuffled: seq<int>, most: nat, other: nat)
    requires multiset(weeks) == multiset(shuffled)
    requires IsMost(multiset(weeks), most) && IsMost(multiset(shuffled), other)
    ensures most == other
  {
  }

  /** Marking one more week raises the largest tally by at most one, and never lowers it. */
  lemma OneMoreWeek(weeks: multiset<int>, week: int, most: nat, more: nat)
    requires IsMost(weeks, most) && IsMost(weeks + multiset{week}, more)
    ensures most <= more <= most + 1
    ensures more == most + 1 <==>
              exists start :: start <= week < start + WINDOW && Tally(weeks, start, WINDOW) == most
  {
    forall start
      ensures Tally(weeks + multiset{week}, start, WINDOW)
              == Tally(weeks, start, WINDOW) + if start <= week < start + WINDOW then 1 else 0
    {
      TallyUnion(weeks, multiset{week}, start, WINDOW);
      TallyOne(week, start, WINDOW);
    }
    var a :| Tally(weeks, a, WINDOW) == most;
    var b :| Tally(weeks + multiset{week}, b, WINDOW) == more;
    assert Tally(weeks + multiset{week}, a, WINDOW) <= more;
    assert Tally(weeks, b, WINDOW) <= most;
  }
}
