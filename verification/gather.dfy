/**
 * What `Sendrecv` does with an indexed datatype (MPI_TYPE_INDEXED, section 4.1.2 of
 * the MPI-3.1 standard): block k is the run of `sizes[k]` elements starting at
 * displacement `offsets[k]`, and the message is the blocks laid end to end in block
 * order. The receiver takes the message into a buffer of fixed capacity.
 */
module IndexedGather {

  /** Sum of a sequence, added from the back. */
  function Sum(s: seq<int>): int {
    if |s| == 0 then 0 else Sum(s[..|s| - 1]) + s[|s| - 1]
  }

  /** Every block is a run of non-negative length inside a buffer of length n. */
  predicate BlocksWithin(sizes: seq<int>, offsets: seq<int>, n: int) {
    && |sizes| == |offsets|
    && forall k :: 0 <= k < |sizes| ==> 0 <= offsets[k] && 0 <= sizes[k] && offsets[k] + sizes[k] <= n
  }

  /** Each block ends at or before the start of the next one. */
  predicate Ordered(sizes: seq<int>, offsets: seq<int>) {
    && |sizes| == |offsets|
    && forall k :: 0 <= k < |sizes| - 1 ==> offsets[k] + sizes[k] <= offsets[k + 1]
  }

  /** The message an indexed datatype selects from `flat`. */
  function Gather(flat: seq<int>, sizes: seq<int>, offsets: seq<int>): (g: seq<int>)
    requires BlocksWithin(sizes, offsets, |flat|)
    ensures |g| == Sum(sizes)
  {
    if |sizes| == 0 then []
    else
      var n := |sizes| - 1;
      Gather(flat, sizes[..n], offsets[..n]) + flat[offsets[n] .. offsets[n] + sizes[n]]
  }

  /** Element t of block k lands at position Sum(sizes[..k]) + t of the message. */
  lemma {:induction false} GatherBlock(flat: seq<int>, sizes: seq<int>, offsets: seq<int>, k: nat, t: nat)
    requires BlocksWithin(sizes, offsets, |flat|)
    requires k < |sizes| && t < sizes[k]
    ensures 0 <= Sum(sizes[..k]) && Sum(sizes[..k]) + t < |Gather(flat, sizes, offsets)|
      && Gather(flat, sizes, offsets)[Sum(sizes[..k]) + t] == flat[offsets[k] + t]
  {
    var n := |sizes| - 1;
    assert sizes[..n + 1] == sizes;
    if k < n {
      assert sizes[..n][..k] == sizes[..k];
      GatherBlock(flat, sizes[..n], offsets[..n], k, t);
    } else {
      assert sizes[..k] == sizes[..n];
      assert |Gather(flat, sizes[..n], offsets[..n])| == Sum(sizes[..n]);
    }
  }

  /** GatherBlock, stated for a message position p and a buffer position q. */
  lemma GatherAt(flat: seq<int>, sizes: seq<int>, offsets: seq<int>, k: nat, t: nat, p: int, q: int)
    requires BlocksWithin(sizes, offsets, |flat|)
    requires k < |sizes| && t < sizes[k]
    requires p == Sum(sizes[..k]) + t && q == offsets[k] + t
    ensures 0 <= p < |Gather(flat, sizes, offsets)| && 0 <= q < |flat|
      && Gather(flat, sizes, offsets)[p] == flat[q]
  {
    GatherBlock(flat, sizes, offsets, k, t);
  }

  /** Ordered blocks hold no more elements than the span from the first start to the last end. */
  lemma {:induction false} SumWithinSpan(sizes: seq<int>, offsets: seq<int>)
    requires |sizes| >= 1 && Ordered(sizes, offsets)
    ensures Sum(sizes) <= offsets[|sizes| - 1] + sizes[|sizes| - 1] - offsets[0]
  {
    var n := |sizes| - 1;
    if n > 0 {
      assert Ordered(sizes[..n], offsets[..n]);
      SumWithinSpan(sizes[..n], offsets[..n]);
      assert offsets[n - 1] + sizes[n - 1] <= offsets[n];
    }
  }

  /** Ordered blocks of non-negative length are pairwise disjoint, not only adjacent ones. */
  lemma {:induction false} OrderedDisjoint(sizes: seq<int>, offsets: seq<int>, k: nat, l: nat)
    requires Ordered(sizes, offsets) && forall q :: 0 <= q < |sizes| ==> sizes[q] >= 0
    requires k < l < |sizes|
    decreases l - k
    ensures offsets[k] + sizes[k] <= offsets[l]
  {
    if k + 1 < l {
      OrderedDisjoint(sizes, offsets, k + 1, l);
    }
  }

  /**
   * The receive side: a message no longer than `capacity` fills the front of the
   * receive buffer, and the rest keeps its initial 0.
   */
  function Receive(message: seq<int>, capacity: nat): (buf: seq<int>)
    requires |message| <= capacity
    ensures |buf| == capacity
    ensures forall p :: 0 <= p < capacity ==> buf[p] == if p < |message| then message[p] else 0
  {
    message + seq(capacity - |message|, _ => 0)
  }
}
