/**
  The block ranges `_ReadFileHeader` of a block file reports from the
  allocation bitmap: bit k of word w (from the lowest) marks block 32 * w + k
  as used, and every maximal run of used blocks that a free block closes is
  reported as the half-open range [start, end).
*/
module AllocationBitmap {
  import opened Bytes

  /** A reported range: blocks start to end - 1 are in use. */
  datatype BlockRange = BlockRange(start: nat, end: nat)

  /** Blocks described by a bitmap of `|bitmap|` words. */
  function BlockCount(bitmap: seq<u32>): nat
  {
    32 * |bitmap|
  }

  /** Block n is in use. */
  predicate Bit(bitmap: seq<u32>, n: nat)
    requires n < BlockCount(bitmap)
  {
    Shr(bitmap[n / 32], n % 32) % 2 == 1
  }

  /**
    [s, e) is a maximal run of used blocks closed by the free block e: every
    block in it is used, e is free, and the block before s (if any) is free.
  */
  predicate ClosedRun(bitmap: seq<u32>, s: nat, e: nat)
  {
    s < e < BlockCount(bitmap)
    && (forall k :: s <= k < e ==> Bit(bitmap, k))
    && !Bit(bitmap, e)
    && (s == 0 || !Bit(bitmap, s - 1))
  }

  /** The scan's variables after some blocks: the ranges so far and the open range, if any. */
  datatype ScanState = ScanState(ranges: seq<BlockRange>, inBlockRange: bool, start: nat, end: nat)

  /** One iteration of the inner loop, for block n whose bit is `used`. */
  function ScanStep(st: ScanState, n: nat, used: bool): ScanState
  {
    if used then
      if st.inBlockRange then st.(end := st.end + 1)
      else ScanState(st.ranges, true, n, n + 1)
    else if st.inBlockRange then
      ScanState(st.ranges + [BlockRange(st.start, st.end)], false, st.start, st.end)
    else st
  }

  /** The state after the first n blocks. */
  function Scan(bitmap: seq<u32>, n: nat): ScanState
    requires n <= BlockCount(bitmap)
  {
    if n == 0 then ScanState([], false, 0, 0)
    else ScanStep(Scan(bitmap, n - 1), n - 1, Bit(bitmap, n - 1))
  }

  /** What the scan knows after n blocks. */
  ghost predicate ScanInv(bitmap: seq<u32>, n: nat, st: ScanState)
    requires n <= BlockCount(bitmap)
  {
    && (st.inBlockRange <==> n > 0 && Bit(bitmap, n - 1))
    && (st.inBlockRange ==>
          && st.start < n && st.end == n
          && (forall k :: st.start <= k < n ==> Bit(bitmap, k))
          && (st.start == 0 || !Bit(bitmap, st.start - 1)))
    && (forall r :: r in st.ranges ==> ClosedRun(bitmap, r.start, r.end) && r.end < n)
    && (forall s: nat, e: nat :: ClosedRun(bitmap, s, e) && e < n ==> BlockRange(s, e) in st.ranges)
    && (forall i, j :: 0 <= i < j < |st.ranges| ==> st.ranges[i].end < st.ranges[j].start)
  }

  /** Two maximal runs of used blocks that are both closed by the free block e start at the same block. */
  lemma RunStartUnique(bitmap: seq<u32>, s: nat, s': nat, e: nat)
    requires s < e && s' < e && e <= BlockCount(bitmap)
    requires forall k :: s <= k < e ==> Bit(bitmap, k)
    requires forall k :: s' <= k < e ==> Bit(bitmap, k)
    requires s == 0 || !Bit(bitmap, s - 1)
    requires s' == 0 || !Bit(bitmap, s' - 1)
    ensures s == s'
  {
    if s < s' {
      assert false;
    } else if s' < s {
      assert false;
    }
  }

  /** Closing a range at a free block keeps the invariant. */
  lemma StepClose(bitmap: seq<u32>, n: nat, st: ScanState)
    requires n < BlockCount(bitmap) && ScanInv(bitmap, n, st)
    requires !Bit(bitmap, n) && st.inBlockRange
    ensures ScanInv(bitmap, n + 1, ScanStep(st, n, false))
  {
    var st' := ScanStep(st, n, false);
    var closed := BlockRange(st.start, st.end);
    assert ClosedRun(bitmap, st.start, n);
    forall s: nat, e: nat | ClosedRun(bitmap, s, e) && e < n + 1
      ensures BlockRange(s, e) in st'.ranges
    {
      if e == n {
        RunStartUnique(bitmap, s, st.start, n);
        assert BlockRange(s, e) == st'.ranges[|st.ranges|];
      } else {
        assert BlockRange(s, e) in st.ranges;
      }
    }
    forall i, j | 0 <= i < j < |st'.ranges|
      ensures st'.ranges[i].end < st'.ranges[j].start
    {
      if j == |st.ranges| {
        var r := st.ranges[i];
        assert r in st.ranges;
        if st.start <= r.end {
          assert false;
        }
      }
    }
  }

  /** Every other iteration keeps the invariant. */
  lemma StepOther(bitmap: seq<u32>, n: nat, st: ScanState)
    requires n < BlockCount(bitmap) && ScanInv(bitmap, n, st)
    requires Bit(bitmap, n) || !st.inBlockRange
    ensures ScanInv(bitmap, n + 1, ScanStep(st, n, Bit(bitmap, n)))
  {
    var st' := ScanStep(st, n, Bit(bitmap, n));
    assert st'.ranges == st.ranges;
    forall s: nat, e: nat | ClosedRun(bitmap, s, e) && e < n + 1
      ensures BlockRange(s, e) in st'.ranges
    {
      if e == n {
        assert false;
      }
    }
  }

  /** The invariant holds after every number of blocks. */
  lemma {:induction false} ScanInvHolds(bitmap: seq<u32>, n: nat)
    requires n <= BlockCount(bitmap)
    ensures ScanInv(bitmap, n, Scan(bitmap, n))
  {
    if n > 0 {
      ScanInvHolds(bitmap, n - 1);
      var st := Scan(bitmap, n - 1);
      if !Bit(bitmap, n - 1) && st.inBlockRange {
        StepClose(bitmap, n - 1, st);
      } else {
        StepOther(bitmap, n - 1, st);
      }
    }
  }

  /** Bit k of word w, as the inner loop sees it after k shifts, is block 32 * w + k. */
  lemma BitOfWord(bitmap: seq<u32>, w: nat, k: nat)
    requires w < |bitmap| && k < 32
    ensures 32 * w + k < BlockCount(bitmap)
    ensures Bit(bitmap, 32 * w + k) <==> Shr(bitmap[w], k) % 2 == 1
  {
    assert (32 * w + k) / 32 == w && (32 * w + k) % 32 == k;
  }

  /**
    The range scan of the header's debug output: every reported range is a
    maximal run of used blocks closed by a free block, every such run is
    reported, and the ranges come in increasing, non-overlapping order. A run
    that reaches the last block is never closed and so never reported.
  */
  method AllocationRanges(bitmap: seq<u32>) returns (ranges: seq<BlockRange>)
    ensures ranges == Scan(bitmap, BlockCount(bitmap)).ranges
    ensures forall r :: r in ranges ==> ClosedRun(bitmap, r.start, r.end)
    ensures forall s: nat, e: nat :: ClosedRun(bitmap, s, e) ==> BlockRange(s, e) in ranges
    ensures forall i, j :: 0 <= i < j < |ranges| ==> ranges[i].end < ranges[j].start
  {
    var blockNumber := 0;
    var blockRangeStart := 0;
    var blockRangeEnd := 0;
    var inBlockRange := false;
    ranges := [];
    var w := 0;
    while w < |bitmap|
      invariant w <= |bitmap| && blockNumber == 32 * w
      invariant ScanState(ranges, inBlockRange, blockRangeStart, blockRangeEnd) == Scan(bitmap, blockNumber)
    {
      var value: nat := bitmap[w];
      var bit := 0;
      while bit < 32
        invariant bit <= 32 && blockNumber == 32 * w + bit
        invariant value == Shr(bitmap[w], bit)
        invariant ScanState(ranges, inBlockRange, blockRangeStart, blockRangeEnd) == Scan(bitmap, blockNumber)
      {
        BitOfWord(bitmap, w, bit);
        if value % 2 == 1 {
          if !inBlockRange {
            blockRangeStart := blockNumber;
            blockRangeEnd := blockNumber;
            inBlockRange := true;
          }
          blockRangeEnd := blockRangeEnd + 1;
        } else if inBlockRange {
          inBlockRange := false;
          ranges := ranges + [BlockRange(blockRangeStart, blockRangeEnd)];
        }
        value := value / 2;
        blockNumber := blockNumber + 1;
        bit := bit + 1;
      }
      w := w + 1;
    }
    ScanInvHolds(bitmap, blockNumber);
  }
}
