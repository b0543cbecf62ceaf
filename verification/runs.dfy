/**
  Repeat runs: the maximal blocks of 3 or more identical consecutive
  characters, and the statistics the checker keeps about them.
  A string is decomposed into its maximal blocks of equal characters
  (its run-length encoding); the repeat runs are the blocks of length
  at least 3, in order.
 */
module RepeatRuns {
  import opened Policy

  /** Length of the block of equal characters that ends at position n (exclusive) of s. */
  function TrailLen(s: seq<char>, n: nat): (t: nat)
    requires 0 < n <= |s|
    ensures 1 <= t <= n
  {
    if n >= 2 && s[n - 2] == s[n - 1] then 1 + TrailLen(s, n - 1) else 1
  }

  /** That block is maximal: all its characters are equal and the one before it differs. */
  lemma {:induction false} TrailLenMaximal(s: seq<char>, n: nat)
    requires 0 < n <= |s|
    ensures forall k :: n - TrailLen(s, n) <= k < n ==> s[k] == s[n - 1]
    ensures TrailLen(s, n) < n ==> s[n - TrailLen(s, n) - 1] != s[n - 1]
  {
    if n >= 2 && s[n - 2] == s[n - 1] {
      TrailLenMaximal(s, n - 1);
    }
  }

  /** Lengths of the maximal blocks of equal characters among the first n of s, left to right. */
  function BlocksBefore(s: seq<char>, n: nat): seq<nat>
    requires n <= |s|
  {
    if n == 0 then [] else BlocksBefore(s, n - TrailLen(s, n)) + [TrailLen(s, n)]
  }

  function Total(xs: seq<nat>): nat {
    if xs == [] then 0 else Total(xs[..|xs| - 1]) + xs[|xs| - 1]
  }

  /** Keeps the blocks long enough to be repeat runs. */
  function KeepLong(bs: seq<nat>): (rs: seq<nat>)
    ensures forall j :: 0 <= j < |rs| ==> rs[j] >= 3
    ensures |rs| <= |bs|
  {
    if bs == [] then []
    else KeepLong(bs[..|bs| - 1]) + (if bs[|bs| - 1] >= 3 then [bs[|bs| - 1]] else [])
  }

  /** The lengths of the repeat runs among the first n characters of s, left to right. */
  function RunsBefore(s: seq<char>, n: nat): seq<nat>
    requires n <= |s|
  {
    KeepLong(BlocksBefore(s, n))
  }

  function Runs(s: seq<char>): seq<nat> {
    RunsBefore(s, |s|)
  }

  /** Replacements that break every run when no deletion is used: floor(len / 3) per run. */
  function ChangeNeed(rs: seq<nat>): nat {
    if rs == [] then 0 else ChangeNeed(rs[..|rs| - 1]) + rs[|rs| - 1] / 3
  }

  /** Number of runs whose length is r modulo 3. */
  function RunCount(rs: seq<nat>, r: nat): nat {
    if rs == [] then 0
    else RunCount(rs[..|rs| - 1], r) + (if rs[|rs| - 1] % 3 == r then 1 else 0)
  }

  /** The 3-bucket histogram of run lengths modulo 3. */
  function Histogram(rs: seq<nat>): seq<nat> {
    [RunCount(rs, 0), RunCount(rs, 1), RunCount(rs, 2)]
  }

  /** The blocks partition the string: their lengths add up to its length. */
  lemma {:induction false} BlocksCover(s: seq<char>, n: nat)
    requires n <= |s|
    ensures Total(BlocksBefore(s, n)) == n
  {
    if n > 0 {
      var t := TrailLen(s, n);
      var bs := BlocksBefore(s, n - t);
      BlocksCover(s, n - t);
      assert (bs + [t])[..|bs|] == bs;
    }
  }

  /** Appending a block keeps it exactly when it is 3 or longer. */
  lemma KeepLongSnoc(bs: seq<nat>, b: nat)
    ensures b >= 3 ==> KeepLong(bs + [b]) == KeepLong(bs) + [b]
    ensures b < 3 ==> KeepLong(bs + [b]) == KeepLong(bs)
  {
    assert (bs + [b])[..|bs|] == bs;
    if b < 3 {
      assert KeepLong(bs) + [] == KeepLong(bs);
    }
  }

  /** The runs of the first n characters are those before the last block, plus that block if it is 3 or longer. */
  lemma RunsSnocBlock(s: seq<char>, n: nat)
    requires 0 < n <= |s|
    ensures TrailLen(s, n) >= 3 ==> RunsBefore(s, n) == RunsBefore(s, n - TrailLen(s, n)) + [TrailLen(s, n)]
    ensures TrailLen(s, n) < 3 ==> RunsBefore(s, n) == RunsBefore(s, n - TrailLen(s, n))
  {
    var t := TrailLen(s, n);
    var bs := BlocksBefore(s, n - t);
    assert BlocksBefore(s, n) == bs + [t];
    KeepLongSnoc(bs, t);
  }

  /** A uniform stretch from a block boundary p to i that ends the block is the block ending at i. */
  lemma BlockEndingAt(s: seq<char>, p: nat, i: nat)
    requires p < i <= |s|
    requires p == 0 || s[p - 1] != s[p]
    requires forall k :: p <= k < i ==> s[k] == s[p]
    ensures TrailLen(s, i) == i - p
  {
    TrailLenMaximal(s, i);
  }

  /**
    Hence a block from a boundary p up to i adds a repeat run exactly when
    it is 3 or longer: each run is counted once, from its first character.
   */
  lemma RunsAt(s: seq<char>, p: nat, i: nat)
    requires p < i <= |s|
    requires p == 0 || s[p - 1] != s[p]
    requires forall k :: p <= k < i ==> s[k] == s[p]
    ensures i - p >= 3 ==> RunsBefore(s, i) == RunsBefore(s, p) + [i - p]
    ensures i - p < 3 ==> RunsBefore(s, i) == RunsBefore(s, p)
  {
    BlockEndingAt(s, p, i);
    RunsSnocBlock(s, i);
  }

  /** Without triples, the last block is shorter than 3 and there is no triple before it. */
  lemma TripleSplitPrefix(s: seq<char>, n: nat)
    requires 0 < n <= |s| && NoTripleBefore(s, n)
    ensures TrailLen(s, n) < 3 && NoTripleBefore(s, n - TrailLen(s, n))
  {
    TrailLenMaximal(s, n);
  }

  /**
    Conversely, a last block shorter than 3 after a part without triples
    creates none: the block boundary breaks every window that straddles it.
   */
  lemma TripleSplitJoin(s: seq<char>, n: nat)
    requires 0 < n <= |s| && TrailLen(s, n) < 3 && NoTripleBefore(s, n - TrailLen(s, n))
    ensures NoTripleBefore(s, n)
  {
    var m := n - TrailLen(s, n);
    TrailLenMaximal(s, n);
    forall i | 2 <= i < n
      ensures !(s[i - 2] == s[i] && s[i - 1] == s[i])
    {
      if i >= m {
        assert 0 < m && s[m - 1] != s[m];
        if m == i {
          assert s[i - 1] != s[i];
        } else {
          assert m == i - 1 && s[i - 2] != s[i - 1] && s[i - 1] == s[i];
        }
      }
    }
  }

  /** There is no repeat run exactly when there are no three equal consecutive characters. */
  lemma {:induction false} RunsEmptyIffNoTriple(s: seq<char>, n: nat)
    requires n <= |s|
    ensures RunsBefore(s, n) == [] <==> NoTripleBefore(s, n)
  {
    if n > 0 {
      var t := TrailLen(s, n);
      RunsEmptyIffNoTriple(s, n - t);
      RunsSnocBlock(s, n);
      if NoTripleBefore(s, n) {
        TripleSplitPrefix(s, n);
      } else if t < 3 && NoTripleBefore(s, n - t) {
        TripleSplitJoin(s, n);
      }
    }
  }

  /** A string of one repeated character is a single block, a run when it is 3 or longer. */
  lemma SingleBlock(s: seq<char>)
    requires |s| > 0 && forall k :: 0 <= k < |s| ==> s[k] == s[0]
    ensures Runs(s) == if |s| >= 3 then [|s|] else []
  {
    BlockEndingAt(s, 0, |s|);
    RunsSnocBlock(s, |s|);
  }

  /** Every run contributes at least one replacement, so the need is 0 only without runs. */
  lemma ChangeNeedZeroIffNoRuns(rs: seq<nat>)
    requires forall j :: 0 <= j < |rs| ==> rs[j] >= 3
    ensures ChangeNeed(rs) == 0 <==> rs == []
  {
  }

  /** The replacement need of s is 0 exactly when s has no three equal consecutive characters. */
  lemma ChangeNeedZeroIffNoTriple(s: seq<char>)
    ensures ChangeNeed(Runs(s)) == 0 <==> NoTripleRepeat(s)
  {
    RunsEmptyIffNoTriple(s, |s|);
    ChangeNeedZeroIffNoRuns(Runs(s));
  }

  /** Recording one more run adds floor(len / 3) to the replacement need. */
  lemma ChangeNeedSnoc(rs: seq<nat>, x: nat)
    ensures ChangeNeed(rs + [x]) == ChangeNeed(rs) + x / 3
  {
    assert (rs + [x])[..|rs|] == rs;
  }

  /** Recording one more run adds one to the bucket len % 3 and nothing to the others. */
  lemma RunCountSnoc(rs: seq<nat>, x: nat, r: nat)
    ensures RunCount(rs + [x], r) == RunCount(rs, r) + (if x % 3 == r then 1 else 0)
  {
    assert (rs + [x])[..|rs|] == rs;
  }

  /**
    The same statistics read directly off the block decomposition of the
    first n characters, block by block (a block shorter than 3 adds nothing).
   */
  function ChangeBefore(s: seq<char>, n: nat): nat
    requires n <= |s|
  {
    if n == 0 then 0 else ChangeBefore(s, n - TrailLen(s, n)) + TrailLen(s, n) / 3
  }

  function CountBefore(s: seq<char>, n: nat, r: nat): nat
    requires n <= |s|
  {
    if n == 0 then 0
    else
      var t := TrailLen(s, n);
      CountBefore(s, n - t, r) + (if t >= 3 && t % 3 == r then 1 else 0)
  }

  /** Block by block, the replacement need is that of the repeat runs. */
  lemma {:induction false} ChangeBeforeIsChangeNeed(s: seq<char>, n: nat)
    requires n <= |s|
    ensures ChangeBefore(s, n) == ChangeNeed(RunsBefore(s, n))
  {
    if n > 0 {
      var t := TrailLen(s, n);
      ChangeBeforeIsChangeNeed(s, n - t);
      RunsSnocBlock(s, n);
      assert ChangeBefore(s, n) == ChangeBefore(s, n - t) + t / 3;
      if t >= 3 {
        ChangeNeedSnoc(RunsBefore(s, n - t), t);
      } else {
        assert t / 3 == 0;
      }
    }
  }

  /** Block by block, the count of bucket r is that of the repeat runs. */
  lemma {:induction false} CountBeforeIsRunCount(s: seq<char>, n: nat, r: nat)
    requires n <= |s|
    ensures CountBefore(s, n, r) == RunCount(RunsBefore(s, n), r)
  {
    if n > 0 {
      var t := TrailLen(s, n);
      CountBeforeIsRunCount(s, n - t, r);
      RunsSnocBlock(s, n);
      if t >= 3 {
        RunCountSnoc(RunsBefore(s, n - t), t, r);
      }
    }
  }

  /** Three bucket counts read block by block over all of s are its histogram. */
  lemma HistogramFromCounts(s: seq<char>, h: seq<int>)
    requires |h| == 3
    requires h[0] == CountBefore(s, |s|, 0) && h[1] == CountBefore(s, |s|, 1) && h[2] == CountBefore(s, |s|, 2)
    ensures h == Histogram(Runs(s))
  {
    CountBeforeIsRunCount(s, |s|, 0);
    CountBeforeIsRunCount(s, |s|, 1);
    CountBeforeIsRunCount(s, |s|, 2);
  }

  /**
    Reading one character that does not complete three equal in a row adds
    nothing, as long as the block ending at i was still short (at most 2)
    or already closed.
   */
  lemma StatsStep(s: seq<char>, i: nat)
    requires i < |s|
    requires 0 < i && s[i] == s[i - 1] ==> TrailLen(s, i) <= 2
    requires !(2 <= i && s[i - 2] == s[i] && s[i - 1] == s[i])
    ensures ChangeBefore(s, i + 1) == ChangeBefore(s, i)
    ensures forall r :: CountBefore(s, i + 1, r) == CountBefore(s, i, r)
    ensures TrailLen(s, i + 1) <= 2
  {
    if 0 < i && s[i] == s[i - 1] {
      assert TrailLen(s, i) == 1;
      assert TrailLen(s, i + 1) == 2;
    }
  }

  /**
    A run whose third character is at i and which ends at end: the block
    ending at i is its first two characters, the block ending at end is all
    of it.
   */
  lemma RunBlockLength(s: seq<char>, i: nat, end: nat)
    requires 2 <= i < end <= |s|
    requires TrailLen(s, i) <= 2
    requires forall k :: i - 2 <= k < end ==> s[k] == s[i]
    requires end == |s| || s[end] != s[i]
    ensures TrailLen(s, i) == 2 && TrailLen(s, end) == end - (i - 2)
  {
    TrailLenMaximal(s, i);
    assert TrailLen(s, i) == 2;
    BlockEndingAt(s, i - 2, end);
  }

  /** Such a run adds its own statistics: floor(len / 3) to the need and one to the bucket len % 3. */
  lemma StatsRun(s: seq<char>, i: nat, end: nat)
    requires 2 <= i < end <= |s|
    requires TrailLen(s, i) == 2 && TrailLen(s, end) == end - (i - 2)
    ensures ChangeBefore(s, end) == ChangeBefore(s, i) + (end - (i - 2)) / 3
    ensures forall r :: CountBefore(s, end, r) == CountBefore(s, i, r) + (if (end - (i - 2)) % 3 == r then 1 else 0)
  {
    var t := end - (i - 2);
    assert ChangeBefore(s, i) == ChangeBefore(s, i - 2);
    forall r
      ensures CountBefore(s, end, r) == CountBefore(s, i, r) + (if t % 3 == r then 1 else 0)
    {
      assert CountBefore(s, i, r) == CountBefore(s, i - 2, r);
    }
  }

  /** The histogram places every run in exactly one bucket. */
  lemma {:induction false} HistogramCountsRuns(rs: seq<nat>)
    ensures RunCount(rs, 0) + RunCount(rs, 1) + RunCount(rs, 2) == |rs|
  {
    if rs != [] {
      HistogramCountsRuns(rs[..|rs| - 1]);
    }
  }
}
