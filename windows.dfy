/** The batching loop of reportSpliceEventCoverageForPeptides: the peptide
    ID array is cut into windows of `Increment` positions, each window is
    turned into a set of IDs, and the peptides of a set are analysed
    together. As written, a window that reaches the end of the array stops
    one short of it, so the last ID is never analysed; the corrected
    windows end at the end of the array. */
module SpliceEventWindows {
  import opened JavaLang

  /** The window width. */
  const Increment: nat := 1000

  /** The number of windows: `from` runs over 0, 1000, ... while below n. */
  function WindowCount(n: nat): nat {
    (n + Increment - 1) / Increment
  }

  /** The exclusive end of the window starting at `start`: start + 1000,
      or n - 1 once that would reach the end of the array. */
  function WindowEnd(start: nat, n: nat): int {
    if start + Increment >= n then n - 1 else start + Increment
  }

  /** Window b is positions [1000 * b, WindowEnd(1000 * b, n)). */
  function WindowStart(b: nat): nat {
    Increment * b
  }

  /** The IDs at positions lo .. hi - 1. */
  ghost function IdsBetween(ids: seq<Int32>, lo: int, hi: int): set<Int32> {
    set j | 0 <= lo <= j < hi <= |ids| :: ids[j]
  }

  /** The inner loop: the IDs of `copyOfRange(ids, start, end)` added to a
      fresh set. */
  method WindowIds(ids: seq<Int32>, start: nat, end: nat) returns (subset: set<Int32>)
    requires start <= end <= |ids|
    ensures subset == IdsBetween(ids, start, end)
  {
    subset := {};
    var j := start;
    while j < end
      invariant start <= j <= end
      invariant subset == IdsBetween(ids, start, j)
    {
      assert IdsBetween(ids, start, j + 1) == subset + {ids[j]};
      subset := subset + {ids[j]};
      j := j + 1;
    }
  }

  /** The window loop as written: one set of IDs per window, in window
      order. */
  method PeptideIdBatches(ids: seq<Int32>) returns (batches: seq<set<Int32>>)
    ensures |batches| == WindowCount(|ids|)
    ensures forall b :: 0 <= b < |batches| ==>
              batches[b] == IdsBetween(ids, WindowStart(b), WindowEnd(WindowStart(b), |ids|))
  {
    var n := |ids|;
    batches := [];
    var start := 0;
    while start < n
      invariant start == WindowStart(|batches|)
      invariant start <= n + Increment - 1
      invariant |batches| <= WindowCount(n)
      invariant start < n ==> |batches| < WindowCount(n)
      invariant start >= n ==> |batches| == WindowCount(n)
      invariant forall b :: 0 <= b < |batches| ==>
                  batches[b] == IdsBetween(ids, WindowStart(b), WindowEnd(WindowStart(b), n))
    {
      var end := start + Increment;
      if end >= n {
        end := n - 1;
      }
      var subset := WindowIds(ids, start, end);
      batches := batches + [subset];
      start := start + Increment;
    }
  }

  /** Each window lies inside the array, ends before its last position and
      spans at most 1000 positions. */
  lemma WindowBounds(n: nat, b: nat)
    requires b < WindowCount(n)
    ensures 0 <= WindowStart(b) < n
    ensures WindowStart(b) <= WindowEnd(WindowStart(b), n) < n
    ensures WindowEnd(WindowStart(b), n) - WindowStart(b) <= Increment
  {
  }

  /** Windows are ascending and disjoint: an earlier window ends where or
      before a later one starts. */
  lemma WindowsAscend(n: nat, b: nat, c: nat)
    requires b < c < WindowCount(n)
    ensures WindowEnd(WindowStart(b), n) <= WindowStart(c)
  {
  }

  /** A position belongs to some window iff it is not the last position of
      the array; it then belongs to window j / 1000. */
  lemma {:induction false} WindowsCover(n: nat, j: int)
    ensures (exists b :: 0 <= b < WindowCount(n) && WindowStart(b) <= j < WindowEnd(WindowStart(b), n))
            <==> 0 <= j < n - 1
  {
    if 0 <= j < n - 1 {
      var b := j / Increment;
      assert WindowStart(b) <= j < WindowStart(b) + Increment;
      assert b < WindowCount(n);
    }
  }

  /** An ID is analysed iff it occurs somewhere before the last position of
      the array. */
  lemma BatchedIds(ids: seq<Int32>, batches: seq<set<Int32>>, id: Int32)
    requires |batches| == WindowCount(|ids|)
    requires forall b :: 0 <= b < |batches| ==>
               batches[b] == IdsBetween(ids, WindowStart(b), WindowEnd(WindowStart(b), |ids|))
    ensures (exists b :: 0 <= b < |batches| && id in batches[b]) <==> exists j :: 0 <= j < |ids| - 1 && ids[j] == id
  {
    var n := |ids|;
    if exists b :: 0 <= b < |batches| && id in batches[b] {
      var b :| 0 <= b < |batches| && id in batches[b];
      var j :| WindowStart(b) <= j < WindowEnd(WindowStart(b), n) && ids[j] == id;
      WindowsCover(n, j);
    }
    if exists j :: 0 <= j < n - 1 && ids[j] == id {
      var j :| 0 <= j < n - 1 && ids[j] == id;
      WindowsCover(n, j);
      var b :| 0 <= b < WindowCount(n) && WindowStart(b) <= j < WindowEnd(WindowStart(b), n);
      assert id in batches[b];
    }
  }

  /** A single peptide is never analysed: its only window is empty. */
  lemma SinglePeptideSkipped(id: Int32)
    ensures WindowCount(|[id]|) == 1
    ensures IdsBetween([id], WindowStart(0), WindowEnd(WindowStart(0), |[id]|)) == {}
  {
  }

  /** The exclusive end of the window starting at `start`, as intended:
      start + 1000, or the end of the array. */
  function CorrectedWindowEnd(start: nat, n: nat): nat {
    if start + Increment >= n then n else start + Increment
  }

  /** The window loop with windows that end at the end of the array. */
  method CorrectedPeptideIdBatches(ids: seq<Int32>) returns (batches: seq<set<Int32>>)
    ensures |batches| == WindowCount(|ids|)
    ensures forall b :: 0 <= b < |batches| ==>
              batches[b] == IdsBetween(ids, WindowStart(b), CorrectedWindowEnd(WindowStart(b), |ids|))
  {
    var n := |ids|;
    batches := [];
    var start := 0;
    while start < n
      invariant start == WindowStart(|batches|)
      invariant start <= n + Increment - 1
      invariant start < n ==> |batches| < WindowCount(n)
      invariant start >= n ==> |batches| == WindowCount(n)
      invariant forall b :: 0 <= b < |batches| ==>
                  batches[b] == IdsBetween(ids, WindowStart(b), CorrectedWindowEnd(WindowStart(b), n))
    {
      var end := start + Increment;
      if end >= n {
        end := n;
      }
      var subset := WindowIds(ids, start, end);
      batches := batches + [subset];
      start := start + Increment;
    }
  }

  /** Each corrected window is a non-empty stretch of at most 1000
      positions inside the array. */
  lemma CorrectedWindowBounds(n: nat, b: nat)
    requires b < WindowCount(n)
    ensures 0 <= WindowStart(b) < CorrectedWindowEnd(WindowStart(b), n) <= n
    ensures CorrectedWindowEnd(WindowStart(b), n) - WindowStart(b) <= Increment
  {
  }

  /** Every position of the array belongs to some corrected window, window
      j / 1000. */
  lemma {:induction false} CorrectedWindowsCover(n: nat, j: int)
    ensures (exists b :: 0 <= b < WindowCount(n) && WindowStart(b) <= j < CorrectedWindowEnd(WindowStart(b), n))
            <==> 0 <= j < n
  {
    if 0 <= j < n {
      var b := j / Increment;
      assert WindowStart(b) <= j < WindowStart(b) + Increment;
      assert b < WindowCount(n);
    }
  }

  /** With the corrected windows every ID of the array is analysed. */
  lemma CorrectedBatchedIds(ids: seq<Int32>, batches: seq<set<Int32>>, id: Int32)
    requires |batches| == WindowCount(|ids|)
    requires forall b :: 0 <= b < |batches| ==>
               batches[b] == IdsBetween(ids, WindowStart(b), CorrectedWindowEnd(WindowStart(b), |ids|))
    ensures (exists b :: 0 <= b < |batches| && id in batches[b]) <==> id in ids
  {
    var n := |ids|;
    if exists b :: 0 <= b < |batches| && id in batches[b] {
      var b :| 0 <= b < |batches| && id in batches[b];
      var j :| WindowStart(b) <= j < CorrectedWindowEnd(WindowStart(b), n) && ids[j] == id;
    }
    if id in ids {
      var j :| 0 <= j < n && ids[j] == id;
      CorrectedWindowsCover(n, j);
      var b :| 0 <= b < WindowCount(n) && WindowStart(b) <= j < CorrectedWindowEnd(WindowStart(b), n);
      assert id in batches[b];
    }
  }
}
