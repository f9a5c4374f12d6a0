/**
  `prepare_data`: per keyword, count the matched timestamps into buckets of `delta` seconds.
  A bucket is named by its end. For each keyword the end pointer starts at `start + delta`;
  each timestamp, taken in the order of the data hash, moves the pointer forward by `delta`
  until the timestamp is not after it, and adds one to the count of that end. The pointer never
  moves back, so the input is assumed to be in time order but this is not checked.
 */
module Histogram {
  import opened Clock

  /**
    A key of a keyword's sub-table: the Integer `0` of the "no match" entry, or a bucket end
    (a `Time`). In Ruby the two never compare equal, whatever the time.
   */
  datatype BucketKey = Zero | End(at: Time)

  /** A keyword's sub-table, a `Hash.new(0)`, as its (key, count) entries in insertion order. */
  type Table = seq<(BucketKey, nat)>

  /** The data hash `{timestamp => [keywords found there]}` as its entries in insertion order. */
  type MatchRecord = seq<(Time, seq<string>)>

  /** The keys of a table in insertion order. */
  function Keys(tab: Table): (r: seq<BucketKey>)
    ensures |r| == |tab|
    ensures forall i :: 0 <= i < |tab| ==> r[i] == tab[i].0
  {
    if tab == [] then [] else [tab[0].0] + Keys(tab[1..])
  }

  /** `tab[key]` on a `Hash.new(0)`: the count stored under `key`, or 0. */
  function Lookup(tab: Table, key: BucketKey): nat {
    if tab == [] then 0
    else if tab[0].0 == key then tab[0].1
    else Lookup(tab[1..], key)
  }

  /** The sum of the counts of a table. */
  function Sum(tab: Table): nat {
    if tab == [] then 0 else tab[0].1 + Sum(tab[1..])
  }

  /** `tab[key] += 1`. */
  function Bump(tab: Table, key: BucketKey): Table {
    if tab == [] then [(key, 1)]
    else if tab[0].0 == key then [(key, tab[0].1 + 1)] + tab[1..]
    else [tab[0]] + Bump(tab[1..], key)
  }

  /**
    `tab[key] += 1` adds one under `key` and changes no other count; an existing key keeps its
    place, a new key goes last.
   */
  lemma {:induction false} BumpFacts(tab: Table, key: BucketKey)
    ensures Lookup(Bump(tab, key), key) == Lookup(tab, key) + 1
    ensures forall k :: k != key ==> Lookup(Bump(tab, key), k) == Lookup(tab, k)
    ensures Sum(Bump(tab, key)) == Sum(tab) + 1
    ensures Keys(Bump(tab, key)) == if key in Keys(tab) then Keys(tab) else Keys(tab) + [key]
  {
    if tab != [] && tab[0].0 != key {
      BumpFacts(tab[1..], key);
      var r := Bump(tab, key);
      assert r[1..] == Bump(tab[1..], key);
      assert Keys(tab) == [tab[0].0] + Keys(tab[1..]);
    }
  }

  /** `tab[key] = v`. */
  function Put(tab: Table, key: BucketKey, v: nat): Table {
    if tab == [] then [(key, v)]
    else if tab[0].0 == key then [(key, v)] + tab[1..]
    else [tab[0]] + Put(tab[1..], key, v)
  }

  /**
    `tab[key] = v` stores `v` under `key` and changes no other count; an existing key keeps
    its place, a new key goes last.
   */
  lemma {:induction false} PutFacts(tab: Table, key: BucketKey, v: nat)
    ensures Lookup(Put(tab, key, v), key) == v
    ensures forall k :: k != key ==> Lookup(Put(tab, key, v), k) == Lookup(tab, k)
    ensures Keys(Put(tab, key, v)) == if key in Keys(tab) then Keys(tab) else Keys(tab) + [key]
  {
    if tab != [] && tab[0].0 != key {
      PutFacts(tab[1..], key, v);
      var r := Put(tab, key, v);
      assert r[1..] == Put(tab[1..], key, v);
      assert Keys(tab) == [tab[0].0] + Keys(tab[1..]);
    }
  }

  /** Bumping the end of each time in `es`, in order. */
  function BumpAll(tab: Table, es: seq<Time>): Table {
    if es == [] then tab
    else Bump(BumpAll(tab, es[..|es| - 1]), End(es[|es| - 1]))
  }

  /**
    Bumping the ends `es` adds `|es|` in all, as many under `End(e)` as `e` occurs in `es`,
    nothing under the `0` key, and no key but those ends.
   */
  lemma {:induction false} BumpAllFacts(tab: Table, es: seq<Time>)
    ensures Sum(BumpAll(tab, es)) == Sum(tab) + |es|
    ensures Lookup(BumpAll(tab, es), Zero) == Lookup(tab, Zero)
    ensures forall e :: Lookup(BumpAll(tab, es), End(e)) == Lookup(tab, End(e)) + multiset(es)[e]
    ensures forall k :: k in Keys(BumpAll(tab, es)) <==> k in Keys(tab) || (k.End? && k.at in es)
    decreases |es|
  {
    if es != [] {
      var init := es[..|es| - 1];
      var last := es[|es| - 1];
      assert es == init + [last];
      BumpAllFacts(tab, init);
      BumpFacts(BumpAll(tab, init), End(last));
    }
  }

  /** `data.select{|k, v| v.include?(word)}.keys`: the times whose keyword list holds `word`. */
  function TimesWith(data: MatchRecord, word: string): seq<Time> {
    if data == [] then []
    else (if word in data[0].1 then [data[0].0] else []) + TimesWith(data[1..], word)
  }

  /**
    The `while !time_in` loop moves the pointer `p` by `delta` until `t <= p`. It stops exactly
    when `delta > 0` or `t` is not after `p` already.
   */
  function Advance(t: Time, p: Time, delta: int): (r: Time)
    requires delta > 0 || t <= p
    ensures t <= r && p <= r
    ensures r == p || r - delta < t
    decreases if t <= p then 0 else t - p
  {
    if t <= p then p else Advance(t, p + delta, delta)
  }

  /** The walk over `ts` from pointer `p0` ends: every time is reached by the pointer. */
  predicate WalkTerminates(ts: seq<Time>, p0: Time, delta: int) {
    delta > 0 || forall i :: 0 <= i < |ts| ==> ts[i] <= p0
  }

  /** The pointer after the walk from `p0` has taken the first `n` times of `ts`. */
  function PointerAfter(ts: seq<Time>, n: nat, p0: Time, delta: int): (p: Time)
    requires n <= |ts| && WalkTerminates(ts, p0, delta)
    ensures p0 <= p
    ensures delta <= 0 ==> p == p0
  {
    if n == 0 then p0 else Advance(ts[n - 1], PointerAfter(ts, n - 1, p0, delta), delta)
  }

  /** The bucket ends the first `n` times of `ts` are counted under, in order. */
  function EndsUpTo(ts: seq<Time>, n: nat, p0: Time, delta: int): (es: seq<Time>)
    requires n <= |ts| && WalkTerminates(ts, p0, delta)
    ensures |es| == n
    ensures forall i :: 0 <= i < n ==> es[i] == PointerAfter(ts, i + 1, p0, delta)
  {
    if n == 0 then [] else EndsUpTo(ts, n - 1, p0, delta) + [PointerAfter(ts, n, p0, delta)]
  }

  /** The bucket end each time of `ts` is counted under, in order. */
  function Ends(ts: seq<Time>, p0: Time, delta: int): (es: seq<Time>)
    requires WalkTerminates(ts, p0, delta)
  {
    EndsUpTo(ts, |ts|, p0, delta)
  }

  /** `h[w]` where `h` builds missing sub-tables on first use. */
  function Sub(h: map<string, Table>, w: string): Table {
    if w in h then h[w] else []
  }

  /**
    One keyword's pass over its times: with no times, `[0] = 0`; otherwise every time bumps the
    end the walk from `start + delta` assigns to it.
   */
  function Pass(tab: Table, ts: seq<Time>, start: Time, delta: int): Table
    requires WalkTerminates(ts, start + delta, delta)
  {
    if |ts| == 0 then Put(tab, Zero, 0) else BumpAll(tab, Ends(ts, start + delta, delta))
  }

  /** Every keyword's walk ends, so prepare_data returns. */
  predicate Terminates(data: MatchRecord, keywords: seq<string>, start: Time, delta: int) {
    forall w :: w in keywords ==> WalkTerminates(TimesWith(data, w), start + delta, delta)
  }

  /** The table after the passes of the first `n` keywords, in list order. */
  function BuildUpTo(data: MatchRecord, keywords: seq<string>, n: nat, start: Time, delta: int): map<string, Table>
    requires n <= |keywords| && Terminates(data, keywords, start, delta)
  {
    if n == 0 then map[]
    else
      var h := BuildUpTo(data, keywords, n - 1, start, delta);
      var w := keywords[n - 1];
      h[w := Pass(Sub(h, w), TimesWith(data, w), start, delta)]
  }

  /** The table prepare_data returns. */
  function Build(data: MatchRecord, keywords: seq<string>, start: Time, delta: int): map<string, Table>
    requires Terminates(data, keywords, start, delta)
  {
    BuildUpTo(data, keywords, |keywords|, start, delta)
  }

  /** The result after the pass of `w` has counted `i` of its times `ts` into `h`. */
  ghost function Partial(h: map<string, Table>, w: string, ts: seq<Time>, i: nat, start: Time, delta: int): map<string, Table>
    requires i <= |ts| && WalkTerminates(ts, start + delta, delta)
  {
    if |ts| == 0 then h[w := Put(Sub(h, w), Zero, 0)]
    else if i == 0 then h
    else h[w := BumpAll(Sub(h, w), EndsUpTo(ts, i, start + delta, delta))]
  }

  /** Bumping one more end after a run of bumps. */
  lemma BumpAllStep(tab: Table, es: seq<Time>, e: Time)
    ensures BumpAll(tab, es + [e]) == Bump(BumpAll(tab, es), End(e))
  {
    assert (es + [e])[..|es|] == es;
  }

  /** After `i` times, the pass has bumped the ends of those times into the sub-table of `w`. */
  lemma PartialTable(h: map<string, Table>, w: string, ts: seq<Time>, i: nat, start: Time, delta: int, x: Table)
    requires i <= |ts| && WalkTerminates(ts, start + delta, delta) && |ts| > 0
    ensures Sub(Partial(h, w, ts, i, start, delta), w) == BumpAll(Sub(h, w), EndsUpTo(ts, i, start + delta, delta))
    ensures Partial(h, w, ts, i, start, delta)[w := x] == h[w := x]
  {
  }

  /** Counting one more time of the pass is one bump of that time's end. */
  lemma PartialStep(h: map<string, Table>, w: string, ts: seq<Time>, i: nat, start: Time, delta: int)
    requires i < |ts| && WalkTerminates(ts, start + delta, delta)
    ensures Partial(h, w, ts, i + 1, start, delta) ==
      Partial(h, w, ts, i, start, delta)[w := Bump(Sub(Partial(h, w, ts, i, start, delta), w), End(PointerAfter(ts, i + 1, start + delta, delta)))]
  {
    var e := PointerAfter(ts, i + 1, start + delta, delta);
    BumpAllStep(Sub(h, w), EndsUpTo(ts, i, start + delta, delta), e);
    var p := Partial(h, w, ts, i, start, delta);
    PartialTable(h, w, ts, i, start, delta, Bump(Sub(p, w), End(e)));
  }

  /**
    prepare_data(data, keywords, start, delta). The nested hash is a `map` value: each update
    of a sub-table binds `keywordFreq` to a new map in which only that keyword's sub-table
    differs. `delta.to_i` is the identity on the Integer `delta`.
   */
  method PrepareData(data: MatchRecord, keywords: seq<string>, start: Time, delta: int)
    returns (keywordFreq: map<string, Table>)
    requires Terminates(data, keywords, start, delta)
    ensures keywordFreq == Build(data, keywords, start, delta)
  {
    keywordFreq := map[];
    var n := 0;
    while n < |keywords|
      invariant 0 <= n <= |keywords|
      invariant keywordFreq == BuildUpTo(data, keywords, n, start, delta)
    {
      var word := keywords[n];
      keywordFreq := CountTimes(keywordFreq, word, TimesWith(data, word), start, delta);
      n := n + 1;
    }
  }

  /**
    The body of prepare_data's loop for one keyword `word` with matched times `timeArray`:
    the `0` entry when there are none, then the walk of the end pointer over the times.
   */
  method CountTimes(h: map<string, Table>, word: string, timeArray: seq<Time>, start: Time, delta: int)
    returns (keywordFreq: map<string, Table>)
    requires WalkTerminates(timeArray, start + delta, delta)
    ensures keywordFreq == h[word := Pass(Sub(h, word), timeArray, start, delta)]
  {
    keywordFreq := h;
    if |timeArray| == 0 {
      keywordFreq := keywordFreq[word := Put(Sub(keywordFreq, word), Zero, 0)];
    }
    var timePoint := start + delta;
    var i := 0;
    while i < |timeArray|
      invariant 0 <= i <= |timeArray|
      invariant timePoint == PointerAfter(timeArray, i, start + delta, delta)
      invariant keywordFreq == Partial(h, word, timeArray, i, start, delta)
    {
      PartialStep(h, word, timeArray, i, start, delta);
      keywordFreq, timePoint := CountTime(keywordFreq, word, timeArray[i], timePoint, delta);
      i := i + 1;
    }
    if |timeArray| > 0 {
      PartialTable(h, word, timeArray, |timeArray|, start, delta, Pass(Sub(h, word), timeArray, start, delta));
    }
  }

  /**
    The `while !time_in` loop for one time `t`: step the end pointer by `delta` until `t` is not
    after it, then add one to the count of that end in the sub-table of `word`.
   */
  method CountTime(h: map<string, Table>, word: string, t: Time, p: Time, delta: int)
    returns (keywordFreq: map<string, Table>, timePoint: Time)
    requires delta > 0 || t <= p
    ensures timePoint == Advance(t, p, delta)
    ensures keywordFreq == h[word := Bump(Sub(h, word), End(timePoint))]
  {
    keywordFreq := h;
    timePoint := p;
    var timeIn := false;
    while !timeIn
      invariant delta > 0 || t <= timePoint
      invariant Advance(t, timePoint, delta) == Advance(t, p, delta)
      invariant !timeIn ==> keywordFreq == h
      invariant timeIn ==> timePoint == Advance(t, p, delta) && keywordFreq == h[word := Bump(Sub(h, word), End(timePoint))]
      decreases if timeIn then 0 else 1, t - timePoint
    {
      if t <= timePoint {
        keywordFreq := keywordFreq[word := Bump(Sub(keywordFreq, word), End(timePoint))];
        timeIn := true;
      } else {
        timePoint := timePoint + delta;
        timeIn := false;
      }
    }
  }
}
