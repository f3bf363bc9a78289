/**
 * The registry workloads of lib/main.cpp (`test_monotone`, `test_chunkedbv`,
 * `some_operations`), run against the live-flag model, with what each of them
 * observes stated as a postcondition.
 */
module RegistryScenarios {
  import opened Indexers

  /** The number of integers of `[lo, hi)` below `h`. */
  function Clip(h: int, lo: int, hi: int): int
    requires lo <= hi
  {
    if h <= lo then 0 else if h >= hi then hi - lo else h - lo
  }

  /**
   * The position of handle `h` once the handles in `[lo1, hi1)` and
   * `[lo2, hi2)` are deleted: -1 inside a deleted range, otherwise `h` less
   * the number of deleted handles below it.
   */
  function ExpectedPosition(h: int, lo1: int, hi1: int, lo2: int, hi2: int): int
    requires lo1 <= hi1 <= lo2 <= hi2
  {
    if lo1 <= h < hi1 || lo2 <= h < hi2 then -1 else h - Clip(h, lo1, hi1) - Clip(h, lo2, hi2)
  }

  /** Prefix counts of a registry whose only dead handles are two ranges. */
  lemma {:induction false} LiveBelowTwoRanges(live: seq<bool>, lo1: int, hi1: int, lo2: int, hi2: int, h: nat)
    requires 0 <= lo1 <= hi1 <= lo2 <= hi2
    requires h <= |live|
    requires forall k :: 0 <= k < |live| ==> live[k] == !(lo1 <= k < hi1 || lo2 <= k < hi2)
    ensures LiveBelow(live, h) == h - Clip(h, lo1, hi1) - Clip(h, lo2, hi2)
  {
    if h > 0 {
      LiveBelowTwoRanges(live, lo1, hi1, lo2, hi2, h - 1);
    }
  }

  /** A prefix of dead handles counts nothing. */
  lemma {:induction false} NoneLiveBelow(live: seq<bool>, h: nat)
    requires h <= |live|
    requires forall k :: 0 <= k < h ==> !live[k]
    ensures LiveBelow(live, h) == 0
  {
    if h > 0 {
      NoneLiveBelow(live, h - 1);
    }
  }

  /** `n` calls of `add_index`: they issue the next `n` handles in order, all live. */
  method IssueHandles(mv: MonotoneIndexer, n: nat) returns (hs: seq<Handle>)
    modifies mv
    ensures mv.live == old(mv.live) + seq(n, _ => true)
    ensures hs == seq(n, k => |old(mv.live)| + k)
    ensures LiveCount(mv.live) == LiveCount(old(mv.live)) + n
  {
    hs := [];
    for i := 0 to n
      invariant mv.live == old(mv.live) + seq(i, _ => true)
      invariant hs == seq(i, k => |old(mv.live)| + k)
      invariant LiveCount(mv.live) == LiveCount(old(mv.live)) + i
    {
      var h := mv.AddIndex();
      hs := hs + [h];
      assert seq(i + 1, _ => true) == seq(i, _ => true) + [true];
    }
  }

  /** `delete_index` on distinct live handles, in order: exactly they turn dead, and the live count drops by their number. */
  method DeleteAll(mv: MonotoneIndexer, ds: seq<Handle>)
    requires forall i, j :: 0 <= i < j < |ds| ==> ds[i] != ds[j]
    requires forall i :: 0 <= i < |ds| ==> ds[i] < |mv.live| && mv.live[ds[i]]
    modifies mv
    ensures |mv.live| == |old(mv.live)|
    ensures forall k :: 0 <= k < |mv.live| ==> mv.live[k] == (old(mv.live)[k] && k !in ds)
    ensures LiveCount(mv.live) == LiveCount(old(mv.live)) - |ds|
  {
    for i := 0 to |ds|
      invariant |mv.live| == |old(mv.live)|
      invariant forall k :: 0 <= k < |mv.live| ==> mv.live[k] == (old(mv.live)[k] && k !in ds[..i])
      invariant LiveCount(mv.live) == LiveCount(old(mv.live)) - i
    {
      assert ds[i] !in ds[..i];
      mv.DeleteIndex(ds[i]);
      assert ds[..i + 1] == ds[..i] + [ds[i]];
    }
    assert ds[..|ds|] == ds;
  }

  /**
   * `test_monotone`: ten handles, three deletions, ten more handles, two
   * deletions, five more, four deletions among the later handles, then a
   * query. Deleted handles are never reissued: the later calls issue 10..19
   * and 20..24, and the last handle ends at position 15.
   */
  method MonotoneScenario() returns (second: seq<Handle>, third: seq<Handle>, position: int)
    ensures second == seq(10, k => 10 + k)
    ensures third == seq(5, k => 20 + k)
    ensures position == 15
  {
    var mv := new MonotoneIndexer();
    var first := IssueHandles(mv, 10);
    DeleteAll(mv, [5, 8, 2]);
    second := IssueHandles(mv, 10);
    DeleteAll(mv, [1, 0]);
    third := IssueHandles(mv, 5);
    DeleteAll(mv, [15, 20, 21, 22]);
    assert |mv.live| == 25 && mv.live[24];

    position := mv.GetIndex(24);
    assert LiveBelow(mv.live, 25) == LiveBelow(mv.live, 24) + 1;
  }

  /**
   * Five handles, then handles 1 and 3 deleted: the survivors 0, 2 and 4 sit
   * at positions 0, 1 and 2, and the deleted handles report -1.
   */
  method DeleteTwoOfFive() returns (positions: seq<int>)
    ensures positions == [0, -1, 1, -1, 2]
  {
    var mv := new MonotoneIndexer();
    var first := IssueHandles(mv, 5);
    mv.DeleteIndex(1);
    mv.DeleteIndex(3);
    assert mv.live == [true, false, true, false, true];
    positions := [];
    for h := 0 to 5
      invariant |positions| == h && mv.live == [true, false, true, false, true]
      invariant forall k :: 0 <= k < h ==> positions[k] == [0, -1, 1, -1, 2][k]
    {
      var p := mv.GetIndex(h);
      assert LiveBelow(mv.live, 1) == 1 && LiveBelow(mv.live, 3) == 2 && LiveBelow(mv.live, 4) == 2;
      positions := positions + [p];
    }
  }

  /**
   * `test_chunkedbv` with `n` single additions and one `add_indices(m)`:
   * `add_indices` returns the first fresh handle, and after deleting handles
   * 0..i the handle i+1 is at position 0, for every i the test visits.
   */
  method ChunkedScenario(n: nat, m: nat) returns (first: Handle, reported: seq<int>)
    ensures first == n
    ensures |reported| == if n + m >= 1 then n + m - 1 else 0
    ensures forall k :: 0 <= k < |reported| ==> reported[k] == 0
  {
    var cbv := new MonotoneIndexer();
    for i := 0 to n
      invariant |cbv.live| == i
      invariant forall k :: 0 <= k < i ==> cbv.live[k]
    {
      var _ := cbv.AddIndex();
    }
    first := cbv.AddIndices(m);

    reported := [];
    var i := 0;
    while i < n + m - 1
      invariant 0 <= i && (i <= n + m - 1 || i == 0)
      invariant |cbv.live| == n + m
      invariant forall k :: 0 <= k < n + m ==> cbv.live[k] == (k >= i)
      invariant |reported| == i
      invariant forall k :: 0 <= k < i ==> reported[k] == 0
    {
      cbv.DeleteIndex(i);
      var x := cbv.GetIndex(i + 1);
      NoneLiveBelow(cbv.live, i + 1);
      reported := reported + [x];
      i := i + 1;
    }
  }

  /**
   * `some_operations` with `n` handles: delete the range `[lo1, hi1)`, query
   * every handle, delete `[lo2, hi2)`, query every handle again. No query
   * fails; deleted handles report -1 and every other handle reports itself
   * less the number of deleted handles below it.
   */
  method RangeWorkload(n: nat, lo1: nat, hi1: nat, lo2: nat, hi2: nat)
    returns (first: seq<int>, second: seq<int>)
    requires lo1 <= hi1 <= lo2 <= hi2 <= n
    ensures |first| == n && |second| == n
    ensures forall h :: 0 <= h < n ==> first[h] == ExpectedPosition(h, lo1, hi1, n, n)
    ensures forall h :: 0 <= h < n ==> second[h] == ExpectedPosition(h, lo1, hi1, lo2, hi2)
  {
    var t := new MonotoneIndexer();
    for i := 0 to n
      invariant |t.live| == i
      invariant forall k :: 0 <= k < i ==> t.live[k]
    {
      var _ := t.AddIndex();
    }
    for i := lo1 to hi1
      invariant |t.live| == n
      invariant forall k :: 0 <= k < n ==> t.live[k] == !(lo1 <= k < i)
    {
      t.DeleteIndex(i);
    }

    first := QueryEvery(t, n, lo1, hi1, n, n);
    for i := lo2 to hi2
      invariant |t.live| == n
      invariant forall k :: 0 <= k < n ==> t.live[k] == !(lo1 <= k < hi1 || lo2 <= k < i)
    {
      t.DeleteIndex(i);
    }
    second := QueryEvery(t, n, lo1, hi1, lo2, hi2);
  }

  /** Queries handles `0 .. n - 1` of an indexer whose deleted handles are the two ranges `[lo1, hi1)` and `[lo2, hi2)`. */
  method QueryEvery(t: MonotoneIndexer, n: nat, lo1: nat, hi1: nat, lo2: nat, hi2: nat) returns (r: seq<int>)
    requires lo1 <= hi1 <= lo2 <= hi2
    requires |t.live| == n
    requires forall k :: 0 <= k < n ==> t.live[k] == !(lo1 <= k < hi1 || lo2 <= k < hi2)
    ensures |r| == n
    ensures forall h :: 0 <= h < n ==> r[h] == ExpectedPosition(h, lo1, hi1, lo2, hi2)
  {
    r := [];
    for i := 0 to n
      invariant |r| == i
      invariant forall h :: 0 <= h < i ==> r[h] == ExpectedPosition(h, lo1, hi1, lo2, hi2)
    {
      var x := t.GetIndex(i);
      LiveBelowTwoRanges(t.live, lo1, hi1, lo2, hi2, i);
      r := r + [x];
    }
  }
}
