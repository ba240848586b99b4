/**
 Median time past (src/chain.h:285-299): if every block is later than the median of the blocks before it, as
 ContextualCheckBlockHeader demands (src/main.cpp:3390-3395), the median never decreases along a chain.
 */
module MedianTime {
  import opened Options
  import opened BlockIndex

  const MEDIAN_TIME_SPAN := 11

  function Time(b: Block, genesisTime: int): int {
    if b == Genesis then genesisTime else b.time
  }

  /** The times of the last n blocks up to b, or of all of them if there are fewer, the oldest first. */
  function Times(b: Block, n: nat, genesisTime: int): (r: seq<int>)
    ensures n > 0 ==> r != [] && |r| == if Height(b) + 1 < n then Height(b) + 1 else n
    ensures n == 0 ==> r == []
  {
    if n == 0 then [] else
      (if b == Genesis then [] else Times(b.pprev, n - 1, genesisTime)) + [Time(b, genesisTime)]
  }

  /** The window of a block: entry k from its end is the time of the k-th ancestor. */
  lemma {:induction false} TimesAt(b: Block, n: nat, genesisTime: int, k: nat)
    requires k < n && k <= Height(b)
    ensures var w := Times(b, n, genesisTime); k < |w| && w[|w| - 1 - k] == Time(Ancestor(b, Height(b) - k), genesisTime)
  {
    if k > 0 {
      TimesAt(b.pprev, n - 1, genesisTime, k - 1);
    }
  }

  // ---------- sorting and counting ----------

  function Insert(s: seq<int>, x: int): seq<int> {
    if s != [] && s[|s| - 1] > x then Insert(s[..|s| - 1], x) + [s[|s| - 1]] else s + [x]
  }

  /** std::sort */
  function Sort(s: seq<int>): seq<int> {
    if s == [] then [] else Insert(Sort(s[..|s| - 1]), s[|s| - 1])
  }

  ghost predicate IsSorted(s: seq<int>) {
    forall i, j | 0 <= i < j < |s| :: s[i] <= s[j]
  }

  /** How many entries are less than m. */
  function Less(s: seq<int>, m: int): nat {
    if s == [] then 0 else Less(s[..|s| - 1], m) + if s[|s| - 1] < m then 1 else 0
  }

  lemma {:induction false} InsertKeeps(s: seq<int>, x: int, m: int)
    ensures |Insert(s, x)| == |s| + 1 && multiset(Insert(s, x)) == multiset(s) + multiset{x}
    ensures Less(Insert(s, x), m) == Less(s, m) + if x < m then 1 else 0
  {
    if s != [] && s[|s| - 1] > x {
      var u, y := s[..|s| - 1], s[|s| - 1];
      InsertKeeps(u, x, m);
      assert s == u + [y];
      LessPush(u, y, m);
      LessPush(Insert(u, x), y, m);
      assert Insert(s, x) == Insert(u, x) + [y];
      hide Insert, Less;
    } else {
      LessPush(s, x, m);
    }
  }

  lemma LessPush(s: seq<int>, x: int, m: int)
    ensures Less(s + [x], m) == Less(s, m) + if x < m then 1 else 0
  {
    assert (s + [x])[..|s|] == s;
  }

  lemma {:induction false} InsertSorted(s: seq<int>, x: int)
    requires IsSorted(s)
    ensures IsSorted(Insert(s, x))
  {
    if s != [] && s[|s| - 1] > x {
      InsertSorted(s[..|s| - 1], x);
      InsertAtMost(s[..|s| - 1], x, s[|s| - 1]);
    }
  }

  ghost predicate AtMost(s: seq<int>, y: int) {
    forall i | 0 <= i < |s| :: s[i] <= y
  }

  lemma {:induction false} InsertAtMost(s: seq<int>, x: int, y: int)
    requires AtMost(s, y) && x <= y
    ensures AtMost(Insert(s, x), y)
  {
    if s != [] && s[|s| - 1] > x {
      InsertAtMost(s[..|s| - 1], x, y);
    }
  }

  lemma {:induction false} SortIs(s: seq<int>, m: int)
    ensures IsSorted(Sort(s)) && |Sort(s)| == |s| && multiset(Sort(s)) == multiset(s)
    ensures Less(Sort(s), m) == Less(s, m)
  {
    hide Insert, Less, IsSorted;
    if s == [] {
      assert IsSorted([]) by { NoneSorted(); }
    } else {
      var u, x := s[..|s| - 1], s[|s| - 1];
      SortIs(u, m);
      InsertKeeps(Sort(u), x, m);
      InsertSorted(Sort(u), x);
      LessPush(u, x, m);
      assert s == u + [x];
    }
  }

  lemma NoneSorted()
    ensures IsSorted([])
  {
  }

  /** In a sorted list, entry k is at least m exactly if at most k entries are less than m. */
  lemma {:induction false} RankOf(s: seq<int>, k: nat, m: int)
    requires IsSorted(s) && k < |s|
    ensures s[k] >= m <==> Less(s, m) <= k
  {
    var u := s[..|s| - 1];
    LessBound(u, m);
    if k < |s| - 1 {
      RankOf(u, k, m);
      if s[|s| - 1] < m {
        AllLess(s, m);
      }
    } else if s[k] < m {
      AllLess(s, m);
    }
  }

  lemma {:induction false} LessBound(s: seq<int>, m: int)
    ensures Less(s, m) <= |s|
  {
    if s != [] {
      LessBound(s[..|s| - 1], m);
    }
  }

  lemma {:induction false} AllLess(s: seq<int>, m: int)
    requires s != [] && IsSorted(s) && s[|s| - 1] < m
    ensures Less(s, m) == |s|
  {
    var u := s[..|s| - 1];
    if u != [] {
      AllLess(u, m);
    }
  }

  /** Leaving out the first entry leaves at most as many entries below m. */
  lemma {:induction false} LessTail(s: seq<int>, m: int)
    requires s != []
    ensures Less(s[1..], m) <= Less(s, m)
  {
    if |s| > 1 {
      LessTail(s[..|s| - 1], m);
      assert s[1..][..|s| - 2] == s[..|s| - 1][1..];
    }
  }

  // ---------- the median ----------

  function Median(s: seq<int>): int
    requires s != []
  {
    SortIs(s, 0);
    Sort(s)[|s| / 2]
  }

  /** What a median is: one of the entries, with at most half of them below it and more than half not above it. */
  ghost predicate IsMedian(s: seq<int>, m: int) {
    m in s && Less(s, m) <= |s| / 2 < Less(s, m + 1)
  }

  lemma MedianIs(s: seq<int>)
    requires s != []
    ensures IsMedian(s, Median(s))
  {
    hide Less, Sort, IsSorted;
    var m := Median(s);
    SortIs(s, m);
    SortIs(s, m + 1);
    RankOf(Sort(s), |s| / 2, m);
    RankOf(Sort(s), |s| / 2, m + 1);
    assert m in multiset(Sort(s));
  }

  function MedianTimePast(b: Block, genesisTime: int): int {
    Median(Times(b, MEDIAN_TIME_SPAN, genesisTime))
  }

  lemma TimesStep(b: Block, n: nat, genesisTime: int)
    ensures Times(b, 0, genesisTime) == []
    ensures n > 0 ==> Times(b, n, genesisTime) == (if b == Genesis then [] else Times(b.pprev, n - 1, genesisTime)) + [Time(b, genesisTime)]
  {
  }

  /** The times at the end of a local array of eleven, filled from its end, sorted. */
  method GetMedianTimePast(b: Block, genesisTime: int) returns (m: int)
    ensures m == MedianTimePast(b, genesisTime)
    ensures var w := Times(b, 11, genesisTime); m in w && Less(w, m) <= |w| / 2 < Less(w, m + 1)
  {
    hide Times, Sort, Less, IsSorted, Median, Time;
    var pmedian := new int[MEDIAN_TIME_SPAN];
    var pbegin := MEDIAN_TIME_SPAN;
    var pindex := Some(b);
    ghost var all := Times(b, MEDIAN_TIME_SPAN, genesisTime);
    var i := 0;
    assert pmedian[..][pbegin..] == [];
    while i < MEDIAN_TIME_SPAN && pindex.Some?
      invariant 0 <= i <= MEDIAN_TIME_SPAN && pbegin == MEDIAN_TIME_SPAN - i
      invariant (if pindex.Some? then Times(pindex.value, MEDIAN_TIME_SPAN - i, genesisTime) else []) + pmedian[..][pbegin..] == all
    {
      ghost var before := pmedian[..];
      pbegin := pbegin - 1;
      pmedian[pbegin] := Time(pindex.value, genesisTime);
      TimesStep(pindex.value, MEDIAN_TIME_SPAN - i, genesisTime);
      OneMore(before, pmedian[..], pbegin, Time(pindex.value, genesisTime));
      pindex := if pindex.value == Genesis then None else Some(pindex.value.pprev);
      i := i + 1;
    }
    assert pmedian[pbegin..] == pmedian[..][pbegin..] == all;
    SortIs(all, 0);
    MedianIs(all);
    MedianAt(all);
    var sorted := Sort(pmedian[pbegin..]);
    return sorted[(MEDIAN_TIME_SPAN - pbegin) / 2];
  }

  lemma OneMore(s: seq<int>, t: seq<int>, p: nat, x: int)
    requires p < |s| && t == s[p := x]
    ensures t[p..] == [x] + s[p + 1..]
  {
  }

  lemma MedianAt(s: seq<int>)
    requires s != []
    ensures |Sort(s)| == |s| && Median(s) == Sort(s)[|s| / 2]
  {
    SortIs(s, 0);
  }

  /** The window of a block is that of its parent with one more entry, without the oldest if it was full. */
  lemma {:induction false} Window(b: Block, n: nat, genesisTime: int)
    requires b != Genesis && n > 0
    ensures var w := Times(b.pprev, n, genesisTime);
            Times(b, n, genesisTime) == (if |w| == n then w[1..] else w) + [Time(b, genesisTime)]
  {
    Shorter(b.pprev, n - 1, genesisTime);
  }

  lemma {:induction false} Shorter(b: Block, n: nat, genesisTime: int)
    ensures var w := Times(b, n + 1, genesisTime);
            Times(b, n, genesisTime) == if |w| == n + 1 then w[1..] else w
  {
    if n > 0 && b != Genesis {
      Shorter(b.pprev, n - 1, genesisTime);
    }
  }

  /** One block later than the median before it does not lower the median. */
  lemma NextMedian(b: Block, genesisTime: int)
    requires b != Genesis && Time(b, genesisTime) > MedianTimePast(b.pprev, genesisTime)
    ensures MedianTimePast(b, genesisTime) >= MedianTimePast(b.pprev, genesisTime)
  {
    hide Less, Sort, Times, IsSorted;
    var m := MedianTimePast(b.pprev, genesisTime);
    var w, w' := Times(b.pprev, MEDIAN_TIME_SPAN, genesisTime), Times(b, MEDIAN_TIME_SPAN, genesisTime);
    SortIs(w, m);
    RankOf(Sort(w), |w| / 2, m);
    Window(b, MEDIAN_TIME_SPAN, genesisTime);
    LessTail(w, m);
    var kept := if |w| == MEDIAN_TIME_SPAN then w[1..] else w;
    LessPush(kept, Time(b, genesisTime), m);
    SortIs(w', m);
    RankOf(Sort(w'), |w'| / 2, m);
  }

  /** Every block after genesis is later than the median before it. */
  predicate TimesRise(b: Block, genesisTime: int) {
    b == Genesis || (Time(b, genesisTime) > MedianTimePast(b.pprev, genesisTime) && TimesRise(b.pprev, genesisTime))
  }

  /** Along a chain the median never decreases, and every block is later than all medians below it. */
  lemma {:induction false} MedianNeverDecreases(a: Block, b: Block, genesisTime: int)
    requires IsAncestor(a, b) && TimesRise(b, genesisTime)
    ensures MedianTimePast(a, genesisTime) <= MedianTimePast(b, genesisTime)
    ensures a != b ==> Time(b, genesisTime) > MedianTimePast(a, genesisTime)
  {
    hide MedianTimePast;
    if a != b {
      NextMedian(b, genesisTime);
      MedianNeverDecreases(a, b.pprev, genesisTime);
    }
  }
}
