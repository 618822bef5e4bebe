/** Circular index arithmetic shared by every ring of the driver (qdma_descq.h).
    The functions are the source's own; no modulus is involved, so an index is only
    meaningful below the ring size and a step must not exceed one lap. */
module Ring {

  function RingIdxDelta(newIdx: nat, oldIdx: nat, rngsz: nat): int {
    if newIdx >= oldIdx then newIdx - oldIdx else newIdx + (rngsz - oldIdx)
  }

  function RingIdxIncr(idx: nat, cnt: nat, rngsz: nat): (i: nat)
    ensures idx < rngsz && cnt <= rngsz ==> i < rngsz
  {
    if idx + cnt >= rngsz then idx + cnt - rngsz else idx + cnt
  }

  function RingIdxDecr(idx: nat, cnt: nat, rngsz: nat): int {
    if idx >= cnt then idx - cnt else rngsz - (cnt - idx)
  }

  /** The three helpers are mutually inverse within one lap. */
  lemma RingIdxInverse(idx: nat, cnt: nat, rngsz: nat)
    requires idx < rngsz && cnt < rngsz
    ensures RingIdxDelta(RingIdxIncr(idx, cnt, rngsz), idx, rngsz) == cnt
    ensures RingIdxDecr(RingIdxIncr(idx, cnt, rngsz), cnt, rngsz) == idx
  {
  }

  /** Within one lap different distances lead to different slots. */
  lemma SlotsDiffer(start: nat, i: nat, n: nat)
    requires start < n && i < n
    ensures RingIdxIncr(start, i, n) == if start + i < n then start + i else start + i - n
    ensures forall k :: 0 <= k < n && k != i ==> RingIdxIncr(start, k, n) != RingIdxIncr(start, i, n)
  {
  }
}
