/**
  What prepare_data's bucket walk guarantees: where the bucket ends lie, when the walk is the
  usual "round up to the next bucket end", when it never ends, and what every keyword's
  sub-table holds.
 */
module HistogramLaws {
  import opened Clock
  import opened Histogram

  /** The `k`-th point of the grid `base, base + delta, base + 2 * delta, ...`. */
  function GridPoint(base: Time, delta: int, k: nat): Time {
    base + k * delta
  }

  /** Multiplying by a non-negative factor keeps the order. */
  lemma MulMonotone(a: int, b: int, d: int)
    requires a <= b && d >= 0
    ensures a * d <= b * d
  {
    assert b * d - a * d == (b - a) * d;
  }

  /** Advancing a pointer that sits on the grid leaves it on the grid, no lower. */
  lemma {:induction false} AdvanceOnGrid(t: Time, base: Time, delta: int, k: nat) returns (j: nat)
    requires delta > 0 || t <= GridPoint(base, delta, k)
    ensures k <= j && Advance(t, GridPoint(base, delta, k), delta) == GridPoint(base, delta, j)
    decreases if t <= GridPoint(base, delta, k) then 0 else t - GridPoint(base, delta, k)
  {
    var p := GridPoint(base, delta, k);
    if t <= p {
      j := k;
    } else {
      assert p + delta == GridPoint(base, delta, k + 1);
      j := AdvanceOnGrid(t, base, delta, k + 1);
    }
  }

  /** After any number of times, the pointer is on the grid from where it started. */
  lemma {:induction false} PointerOnGrid(ts: seq<Time>, n: nat, p0: Time, delta: int) returns (k: nat)
    requires n <= |ts| && WalkTerminates(ts, p0, delta)
    ensures PointerAfter(ts, n, p0, delta) == GridPoint(p0, delta, k)
  {
    if n == 0 {
      k := 0;
    } else {
      var k' := PointerOnGrid(ts, n - 1, p0, delta);
      k := AdvanceOnGrid(ts[n - 1], p0, delta, k');
    }
  }

  /** The pointer never moves back. */
  lemma {:induction false} PointerMonotone(ts: seq<Time>, i: nat, j: nat, p0: Time, delta: int)
    requires i <= j <= |ts| && WalkTerminates(ts, p0, delta)
    ensures PointerAfter(ts, i, p0, delta) <= PointerAfter(ts, j, p0, delta)
    decreases j
  {
    if i < j {
      PointerMonotone(ts, i, j - 1, p0, delta);
    }
  }

  /** The end a time is counted under is `start + k * delta` for some `k >= 1`, and the time is not after it. */
  lemma BucketEnd(ts: seq<Time>, start: Time, delta: int, i: nat) returns (k: nat)
    requires i < |ts| && WalkTerminates(ts, start + delta, delta)
    ensures var e := Ends(ts, start + delta, delta)[i];
      && 1 <= k && e == GridPoint(start, delta, k)
      && ts[i] <= e && start + delta <= e
  {
    var k' := PointerOnGrid(ts, i + 1, start + delta, delta);
    k := k' + 1;
    assert GridPoint(start + delta, delta, k') == GridPoint(start, delta, k);
  }

  /** The ends of later times are never earlier: the pointer is not reset within a keyword. */
  lemma EndsNonDecreasing(ts: seq<Time>, p0: Time, delta: int)
    requires WalkTerminates(ts, p0, delta)
    ensures forall i, j :: 0 <= i <= j < |ts| ==> Ends(ts, p0, delta)[i] <= Ends(ts, p0, delta)[j]
  {
    forall i, j | 0 <= i <= j < |ts|
      ensures Ends(ts, p0, delta)[i] <= Ends(ts, p0, delta)[j]
    {
      PointerMonotone(ts, i + 1, j + 1, p0, delta);
    }
  }

  /** `ts` is in time order. */
  predicate Sorted(ts: seq<Time>) {
    forall i, j :: 0 <= i <= j < |ts| ==> ts[i] <= ts[j]
  }

  /** On sorted times the pointer is either still at its start or less than one step past the last time. */
  lemma {:induction false} SortedPointerTight(ts: seq<Time>, n: nat, p0: Time, delta: int)
    requires 1 <= n <= |ts| && WalkTerminates(ts, p0, delta) && Sorted(ts)
    ensures var p := PointerAfter(ts, n, p0, delta); p == p0 || p - delta < ts[n - 1]
  {
    if n > 1 {
      SortedPointerTight(ts, n - 1, p0, delta);
    }
  }

  /**
    For sorted times and `delta > 0`, each time is counted under the smallest grid point
    `p0 + k * delta` that it is not after: the walk rounds every time up to its bucket end.
   */
  lemma SmallestBucketEnd(ts: seq<Time>, p0: Time, delta: int, i: nat, k: nat)
    requires delta > 0 && i < |ts| && Sorted(ts)
    requires ts[i] <= GridPoint(p0, delta, k)
    ensures Ends(ts, p0, delta)[i] <= GridPoint(p0, delta, k)
  {
    var j := PointerOnGrid(ts, i + 1, p0, delta);
    SortedPointerTight(ts, i + 1, p0, delta);
    if j > 0 && k < j {
      MulMonotone(k, j - 1, delta);
      assert GridPoint(p0, delta, j) - delta == GridPoint(p0, delta, j - 1);
    }
    MulMonotone(0, k, delta);
    if k >= j {
      MulMonotone(j, k, delta);
    }
  }

  /**
    Out of order, a time can land in a later bucket than its own: with ends from 10 in steps
    of 10, the time 5 after the time 25 is counted under 30, not 10.
   */
  lemma UnsortedLandsLate()
    ensures Ends([25, 5], 10, 10) == [30, 30]
    ensures 5 <= GridPoint(10, 10, 0) < 30
  {
    assert Advance(25, 10, 10) == 30;
    assert EndsUpTo([25, 5], 1, 10, 10) == [30];
  }

  /**
    With `delta <= 0` the pointer never passes its start, so a time after the start is never
    reached and the `while !time_in` loop never ends.
   */
  lemma WalkDiverges(t: Time, p0: Time, delta: int, k: nat)
    requires delta <= 0 && t > p0
    ensures GridPoint(p0, delta, k) < t
  {
    MulMonotone(0, k, -delta);
  }

  /** prepare_data returns exactly when every walk terminates, and its precondition says so. */
  lemma NonTerminationWitness(ts: seq<Time>, p0: Time, delta: int)
    requires !WalkTerminates(ts, p0, delta)
    ensures exists i :: 0 <= i < |ts| && forall k: nat :: GridPoint(p0, delta, k) < ts[i]
  {
    var i :| 0 <= i < |ts| && ts[i] > p0;
    forall k: nat
      ensures GridPoint(p0, delta, k) < ts[i]
    {
      WalkDiverges(ts[i], p0, delta, k);
    }
  }

  /** `m * c` by repeated addition: the count after `m` passes that each add `c`. */
  function Times(m: nat, c: nat): nat {
    if m == 0 then 0 else Times(m - 1, c) + c
  }

  /** Repeated addition is multiplication. */
  lemma {:induction false} TimesIsProduct(m: nat, c: nat)
    ensures Times(m, c) == m * c
  {
    if m > 0 {
      TimesIsProduct(m - 1, c);
      assert m * c == (m - 1) * c + c;
    }
  }

  /** Each end `e` is counted `m` times for every time of `es` that lands on it. */
  ghost predicate CountsAre(tab: Table, es: seq<Time>, m: nat) {
    forall e :: Lookup(tab, End(e)) == Times(m, multiset(es)[e])
  }

  /** The keys of the table are exactly the ends in `es`. */
  ghost predicate KeysAre(tab: Table, es: seq<Time>) {
    forall key :: key in Keys(tab) <==> key.End? && key.at in es
  }

  /**
    What `m` passes over the non-empty bucket ends `es` leave in a sub-table: no `0` key, the
    ends of `es` as keys, and `m` times each count (`Times(m, c)` is `m * c`, TimesIsProduct).
   */
  ghost predicate Bumped(tab: Table, es: seq<Time>, m: nat) {
    Zero !in Keys(tab) && Sum(tab) == Times(m, |es|) && CountsAre(tab, es, m) && KeysAre(tab, es)
  }

  /** The sub-table a keyword ends up with, given it was passed `m >= 1` times over its times `ts`. */
  ghost predicate SubTableAfter(tab: Table, ts: seq<Time>, m: nat, p0: Time, delta: int)
    requires WalkTerminates(ts, p0, delta)
  {
    if |ts| == 0 then tab == [(Zero, 0)] else Bumped(tab, Ends(ts, p0, delta), m)
  }

  /** One more run of bumps over the ends `es` moves a sub-table from `m` runs to `m + 1`. */
  lemma BumpAgain(tab: Table, es: seq<Time>, m: nat)
    requires |es| > 0
    requires m == 0 ==> tab == []
    requires m > 0 ==> Bumped(tab, es, m)
    ensures Bumped(BumpAll(tab, es), es, m + 1)
  {
    var r := BumpAll(tab, es);
    BumpAllFacts(tab, es);
    if m == 0 {
      assert Keys(tab) == [] && Sum(tab) == 0;
      forall e
        ensures Lookup(r, End(e)) == Times(1, multiset(es)[e])
      {
        assert Lookup(tab, End(e)) == 0;
      }
    } else {
      forall e
        ensures Lookup(r, End(e)) == Times(m + 1, multiset(es)[e])
      {
        assert Lookup(tab, End(e)) == Times(m, multiset(es)[e]);
      }
    }
  }

  /** The sub-table of a keyword after `m` passes over its times `ts`. */
  function Repeated(ts: seq<Time>, m: nat, start: Time, delta: int): Table
    requires WalkTerminates(ts, start + delta, delta)
  {
    if m == 0 then [] else Pass(Repeated(ts, m - 1, start, delta), ts, start, delta)
  }

  /** After one pass or more, a keyword's sub-table is `{0 => 0}` with no times, else its bumped ends. */
  lemma {:induction false} RepeatedTable(ts: seq<Time>, m: nat, start: Time, delta: int)
    requires m >= 1 && WalkTerminates(ts, start + delta, delta)
    ensures SubTableAfter(Repeated(ts, m, start, delta), ts, m, start + delta, delta)
  {
    var prev := Repeated(ts, m - 1, start, delta);
    if m > 1 {
      RepeatedTable(ts, m - 1, start, delta);
    }
    if |ts| > 0 {
      BumpAgain(prev, Ends(ts, start + delta, delta), m - 1);
    }
  }

  /** The table after the first `n` keywords has exactly those keywords. */
  lemma {:induction false} BuildUpToKeys(data: MatchRecord, keywords: seq<string>, n: nat, start: Time, delta: int, w: string)
    requires n <= |keywords| && Terminates(data, keywords, start, delta)
    ensures w in BuildUpTo(data, keywords, n, start, delta) <==> w in keywords[..n]
  {
    if n > 0 {
      BuildUpToKeys(data, keywords, n - 1, start, delta, w);
      assert keywords[..n] == keywords[..n - 1] + [keywords[n - 1]];
    }
  }

  /** How often `w` is among the first `n` keywords. */
  function Listed(keywords: seq<string>, n: nat, w: string): nat
    requires n <= |keywords|
  {
    if n == 0 then 0 else Listed(keywords, n - 1, w) + if keywords[n - 1] == w then 1 else 0
  }

  /** Counting a keyword along the list is its multiplicity in the list. */
  lemma {:induction false} ListedIsMultiplicity(keywords: seq<string>, n: nat, w: string)
    requires n <= |keywords|
    ensures Listed(keywords, n, w) == multiset(keywords[..n])[w]
  {
    if n > 0 {
      ListedIsMultiplicity(keywords, n - 1, w);
      assert keywords[..n] == keywords[..n - 1] + [keywords[n - 1]];
    }
  }

  /** The pass of the `n`-th keyword, when it is `w`, is one more pass over the times of `w`. */
  lemma BuildUpToSame(data: MatchRecord, keywords: seq<string>, n: nat, start: Time, delta: int, w: string, ts: seq<Time>, m: nat)
    requires 0 < n <= |keywords| && Terminates(data, keywords, start, delta) && keywords[n - 1] == w
    requires ts == TimesWith(data, w) && WalkTerminates(ts, start + delta, delta)
    requires Sub(BuildUpTo(data, keywords, n - 1, start, delta), w) == Repeated(ts, m, start, delta)
    ensures Sub(BuildUpTo(data, keywords, n, start, delta), w) == Repeated(ts, m + 1, start, delta)
  {
  }

  /** The pass of the `n`-th keyword, when it is not `w`, leaves the sub-table of `w` alone. */
  lemma BuildUpToOther(data: MatchRecord, keywords: seq<string>, n: nat, start: Time, delta: int, w: string)
    requires 0 < n <= |keywords| && Terminates(data, keywords, start, delta) && keywords[n - 1] != w
    ensures Sub(BuildUpTo(data, keywords, n, start, delta), w) == Sub(BuildUpTo(data, keywords, n - 1, start, delta), w)
  {
  }

  /** After the first `n` keywords, each keyword's sub-table is one pass per time it was listed. */
  lemma {:induction false} BuildUpToEntry(data: MatchRecord, keywords: seq<string>, n: nat, start: Time, delta: int, w: string, ts: seq<Time>, m: nat)
    requires n <= |keywords| && Terminates(data, keywords, start, delta)
    requires ts == TimesWith(data, w) && WalkTerminates(ts, start + delta, delta)
    requires m == Listed(keywords, n, w)
    ensures Sub(BuildUpTo(data, keywords, n, start, delta), w) == Repeated(ts, m, start, delta)
  {
    if n > 0 {
      if keywords[n - 1] == w {
        BuildUpToEntry(data, keywords, n - 1, start, delta, w, ts, m - 1);
        BuildUpToSame(data, keywords, n, start, delta, w, ts, m - 1);
      } else {
        BuildUpToEntry(data, keywords, n - 1, start, delta, w, ts, m);
        BuildUpToOther(data, keywords, n, start, delta, w);
      }
    }
  }

  /**
    prepare_data gives every keyword a sub-table and no other key. A keyword with no matched
    times gets exactly `{0 => 0}`; otherwise its sub-table has no `0` key, holds one count per
    time under that time's bucket end and nothing else, times the number of times the keyword
    is listed.
   */
  lemma BuildEntry(data: MatchRecord, keywords: seq<string>, start: Time, delta: int, w: string)
    requires Terminates(data, keywords, start, delta)
    ensures w in Build(data, keywords, start, delta) <==> w in keywords
    ensures w in keywords ==> SubTableAfter(Build(data, keywords, start, delta)[w], TimesWith(data, w),
      multiset(keywords)[w], start + delta, delta)
  {
    BuildUpToKeys(data, keywords, |keywords|, start, delta, w);
    assert keywords[..|keywords|] == keywords;
    if w in keywords {
      BuildUpToEntry(data, keywords, |keywords|, start, delta, w, TimesWith(data, w), Listed(keywords, |keywords|, w));
      ListedIsMultiplicity(keywords, |keywords|, w);
      RepeatedTable(TimesWith(data, w), multiset(keywords)[w], start, delta);
    }
  }

  /**
    With every keyword listed once, a matched keyword's counts add up to the number of its
    times, and each bucket end counts the times that land in it.
   */
  lemma BuildCountsTimes(data: MatchRecord, keywords: seq<string>, start: Time, delta: int, w: string, e: Time)
    requires Terminates(data, keywords, start, delta)
    requires w in keywords && multiset(keywords)[w] == 1 && |TimesWith(data, w)| > 0
    ensures w in Build(data, keywords, start, delta)
    ensures Sum(Build(data, keywords, start, delta)[w]) == |TimesWith(data, w)|
    ensures Lookup(Build(data, keywords, start, delta)[w], End(e)) ==
      multiset(Ends(TimesWith(data, w), start + delta, delta))[e]
  {
    BuildEntry(data, keywords, start, delta, w);
    var ts := TimesWith(data, w);
    var es := Ends(ts, start + delta, delta);
    assert Bumped(Build(data, keywords, start, delta)[w], es, 1);
    assert Times(1, |es|) == |es|;
    assert Times(1, multiset(es)[e]) == multiset(es)[e];
  }

  /**
    analyse_log always returns an empty data hash, so the table handed to the plot gives every
    keyword only its `{0 => 0}` entry.
   */
  lemma EmptyDataGivesZeroTables(keywords: seq<string>, start: Time, delta: int, w: string)
    requires w in keywords
    ensures Terminates([], keywords, start, delta)
    ensures w in Build([], keywords, start, delta)
    ensures Build([], keywords, start, delta)[w] == [(Zero, 0)]
  {
    BuildEntry([], keywords, start, delta, w);
  }

  /**
    With the always-empty hash, the first key of a keyword's sub-table is the Integer `0`, not a
    bucket end (a `Time`), and the count stored there is `0`.
   */
  lemma EmptyDataFirstKeyIsZero(keywords: seq<string>, start: Time, delta: int)
    requires |keywords| > 0
    ensures Terminates([], keywords, start, delta)
    ensures keywords[0] in Build([], keywords, start, delta)
    ensures |Build([], keywords, start, delta)[keywords[0]]| == 1
    ensures Keys(Build([], keywords, start, delta)[keywords[0]])[0] == Zero
    ensures Lookup(Build([], keywords, start, delta)[keywords[0]], Zero) == 0
  {
    EmptyDataGivesZeroTables(keywords, start, delta, keywords[0]);
  }

  /**
    Times 10:02, 10:04 and 10:12 from a start of 10:00 in 5-minute buckets: two in the bucket
    ending 10:05, one in the bucket ending 10:15, and no entry for 10:10.
   */
  lemma FiveMinuteBuckets()
    ensures Terminates([(36120, ["X"]), (36240, ["X"]), (36720, ["X"])], ["X"], 36000, 300)
    ensures Build([(36120, ["X"]), (36240, ["X"]), (36720, ["X"])], ["X"], 36000, 300) ==
      map["X" := [(End(36300), 2), (End(36900), 1)]]
  {
    var data: MatchRecord := [(36120, ["X"]), (36240, ["X"]), (36720, ["X"])];
    assert TimesWith(data, "X") == [36120, 36240, 36720] by {
      assert data[1..] == [(36240, ["X"]), (36720, ["X"])];
      assert data[1..][1..] == [(36720, ["X"])];
    }
    var ts := [36120, 36240, 36720];
    assert Advance(36720, 36300, 300) == 36900 by {
      assert Advance(36720, 36600, 300) == 36900;
    }
    assert Ends(ts, 36300, 300) == [36300, 36300, 36900] by {
      assert EndsUpTo(ts, 1, 36300, 300) == [36300];
      assert EndsUpTo(ts, 2, 36300, 300) == [36300, 36300];
    }
    var es := [36300, 36300, 36900];
    assert BumpAll([], es) == [(End(36300), 2), (End(36900), 1)] by {
      assert es[..2] == [36300, 36300];
      assert es[..2][..1] == [36300];
      assert BumpAll([], [36300]) == [(End(36300), 1)];
      assert BumpAll([], [36300, 36300]) == [(End(36300), 2)];
      var one: Table := [(End(36300), 2)];
      assert one[1..] == [];
      assert Bump(one, End(36900)) == [(End(36300), 2), (End(36900), 1)];
    }
    assert Build(data, ["X"], 36000, 300) == BuildUpTo(data, ["X"], 1, 36000, 300);
    assert BuildUpTo(data, ["X"], 1, 36000, 300) == map[]["X" := Pass([], ts, 36000, 300)];
  }
}
