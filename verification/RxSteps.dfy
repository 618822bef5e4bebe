/** Steps of the receive ring on values: reading out, and handing drained buffers back. */
module RxSteps {
  import opened Ring
  import opened RxModel

  /** Where buffer `i` of a run of buffers sits in what the run holds. */
  lemma GatherAt(mem: seq<Byte>, bufs: seq<Buf>, start: nat, cnt: nat, i: nat)
    requires start < |bufs| && i < cnt <= |bufs|
    ensures var all := Gather(mem, bufs, start, cnt);
            var b := bufs[RingIdxIncr(start, i, |bufs|)];
            var g := |Gather(mem, bufs, start, i)|;
            && g + b.len <= |all| && all[g..g + b.len] == Contents(mem, b)
            && |Gather(mem, bufs, start, i + 1)| == g + b.len
  {
    var s := RingIdxIncr(start, i, |bufs|);
    GatherSplit(mem, bufs, start, i, cnt - i);
    GatherSplit(mem, bufs, start, i, 1);
    assert Gather(mem, bufs, s, 1) == Contents(mem, bufs[s]) + Gather(mem, bufs, RingIdxIncr(s, 1, |bufs|), 0);
  }

  lemma GatherPrefix(mem: seq<Byte>, bufs: seq<Buf>, start: nat, cnt: nat, i: nat)
    requires start < |bufs| && i <= cnt <= |bufs|
    ensures Gather(mem, bufs, start, i) <= Gather(mem, bufs, start, cnt)
  {
    GatherSplit(mem, bufs, start, i, cnt - i);
  }

  // ----- reading -----

  function Trim(b: Buf, foff: nat): Buf {
    b.(addr := b.addr + foff, len := if foff <= b.len then b.len - foff else 0)
  }

  /** A read may have emptied `i` buffers and taken `foff` bytes of the next. */
  ghost predicate CanDrain(w: Win, i: nat, foff: nat) {
    && w.base < |w.bufs| && w.lag + w.cnt < |w.bufs| && i <= w.cnt
    && (foff > 0 ==> i < w.cnt && foff <= w.bufs[RingIdxIncr(w.base, w.lag + i, |w.bufs|)].len)
  }

  /** Bytes taken by such a read. */
  function Taken(mem: seq<Byte>, w: Win, i: nat, foff: nat): nat
    requires w.base < |w.bufs| && w.lag <= |w.bufs|
  {
    |Gather(mem, w.bufs, RingIdxIncr(w.base, w.lag, |w.bufs|), i)| + foff
  }

  function TrimAt(bufs: seq<Buf>, s: nat, foff: nat): seq<Buf>
    requires foff > 0 ==> s < |bufs|
  {
    if foff == 0 then bufs else bufs[s := Trim(bufs[s], foff)]
  }

  function Drain(mem: seq<Byte>, w: Win, i: nat, foff: nat): Win
    requires CanDrain(w, i, foff) && Taken(mem, w, i, foff) <= w.pktDlen
  {
    w.(bufs := TrimAt(w.bufs, RingIdxIncr(w.base, w.lag + i, |w.bufs|), foff),
       lag := w.lag + i, cnt := w.cnt - i, pktDlen := w.pktDlen - Taken(mem, w, i, foff))
  }

  /** Slot numbers counted from `base` and from the slot `lag` places on. */
  lemma SlotsFrom(base: nat, lag: nat, n: nat)
    requires base < n && lag < n
    ensures RingIdxIncr(base, lag, n) < n
    ensures forall k :: 0 <= k <= n - lag ==>
            RingIdxIncr(RingIdxIncr(base, lag, n), k, n) == RingIdxIncr(base, lag + k, n)
  {
  }

  /** Unread bytes seen from the buffer that a read will stop in. */
  lemma PendingFrom(mem: seq<Byte>, w: Win, i: nat)
    requires w.base < |w.bufs| && w.lag + w.cnt < |w.bufs| && i <= w.cnt
    ensures var start := RingIdxIncr(w.base, w.lag, |w.bufs|);
            Pending(mem, w) == Gather(mem, w.bufs, start, i) +
                               Gather(mem, w.bufs, RingIdxIncr(w.base, w.lag + i, |w.bufs|), w.cnt - i)
  {
    SlotsFrom(w.base, w.lag, |w.bufs|);
    GatherSplit(mem, w.bufs, RingIdxIncr(w.base, w.lag, |w.bufs|), i, w.cnt - i);
  }

  lemma TakenFits(mem: seq<Byte>, w: Win, i: nat, foff: nat)
    requires CanDrain(w, i, foff)
    ensures Taken(mem, w, i, foff) <= |Pending(mem, w)|
  {
    PendingFrom(mem, w, i);
  }

  lemma TrimContents(mem: seq<Byte>, b: Buf, foff: nat)
    requires foff <= b.len
    ensures Contents(mem, Trim(b, foff)) == Contents(mem, b)[foff..]
  {
  }

  lemma GatherStep(mem: seq<Byte>, bufs: seq<Buf>, s: nat, cnt: nat)
    requires s < |bufs| && cnt > 0
    ensures Gather(mem, bufs, s, cnt) ==
            Contents(mem, bufs[s]) + Gather(mem, bufs, RingIdxIncr(s, 1, |bufs|), cnt - 1)
  {
  }

  lemma DropFront(a: seq<Byte>, b: seq<Byte>, k: nat)
    requires k <= |a|
    ensures (a + b)[k..] == a[k..] + b
  {
  }

  /** Trimming the first buffer of a run drops bytes from the front. */
  lemma TrimDrops(mem: seq<Byte>, bufs: seq<Buf>, s: nat, cnt: nat, foff: nat)
    requires s < |bufs| && 0 < cnt < |bufs| && foff <= bufs[s].len
    ensures foff <= |Gather(mem, bufs, s, cnt)|
    ensures Gather(mem, TrimAt(bufs, s, foff), s, cnt) == Gather(mem, bufs, s, cnt)[foff..]
  {
    hide Gather, Contents, Trim;
    var bufs' := TrimAt(bufs, s, foff);
    var next := RingIdxIncr(s, 1, |bufs|);
    TrimContents(mem, bufs[s], foff);
    GatherStep(mem, bufs, s, cnt);
    ContentsLength(mem, bufs[s]);
    if foff == 0 {
      assert Gather(mem, bufs, s, cnt)[0..] == Gather(mem, bufs, s, cnt);
    } else {
      GatherStep(mem, bufs', s, cnt);
      forall k | 0 <= k < cnt - 1
        ensures Contents(mem, bufs[RingIdxIncr(next, k, |bufs|)]) == Contents(mem, bufs'[RingIdxIncr(next, k, |bufs|)])
      {
        assert RingIdxIncr(next, k, |bufs|) != s;
      }
      GatherFrame(mem, bufs, mem, bufs', next, cnt - 1);
      DropFront(Contents(mem, bufs[s]), Gather(mem, bufs, next, cnt - 1), foff);
    }
  }

  lemma ContentsLength(mem: seq<Byte>, b: Buf)
    ensures |Contents(mem, b)| == b.len
  {
  }

  /** A read takes bytes off the front of the unread ones, and the ledger stays balanced. */
  lemma DrainKeeps(bufsz: nat, mem: seq<Byte>, w: Win, i: nat, foff: nat)
    requires Inv(bufsz, mem, w) && CanDrain(w, i, foff)
    ensures Taken(mem, w, i, foff) <= w.pktDlen
    ensures var u := Drain(mem, w, i, foff);
            && Inv(bufsz, mem, u)
            && Pending(mem, u) == Pending(mem, w)[Taken(mem, w, i, foff)..]
  {
    hide Gather;
    TakenFits(mem, w, i, foff);
    PendingFrom(mem, w, i);
    var s := RingIdxIncr(w.base, w.lag + i, |w.bufs|);
    if foff > 0 {
      TrimDrops(mem, w.bufs, s, w.cnt - i, foff);
      SlotsDiffer(w.base, w.lag + i, |w.bufs|);
    }
    var u := Drain(mem, w, i, foff);
    assert Pending(mem, u) == Gather(mem, u.bufs, s, w.cnt - i);
  }

  // ----- refilling with recycled buffers -----

  /** `qdma_flq_refill` with `recycle` set: the length is restored, the address is not. */
  function Recycled(b: Buf, bufsz: nat): Buf {
    b.(len := bufsz, valid := false)
  }

  ghost predicate Refilled(bufs: seq<Buf>, bufs': seq<Buf>, at: nat, count: nat, bufsz: nat) {
    var n := |bufs|;
    && |bufs'| == n && at < n && count < n
    && forall k :: 0 <= k < n ==>
         var s := RingIdxIncr(at, k, n);
         bufs'[s] == if k < count then Recycled(bufs[s], bufsz) else bufs[s]
  }

  function Refill(w: Win, bufs': seq<Buf>): Win {
    w.(bufs := bufs', base := RingIdxIncr(w.base, w.lag, |w.bufs|), lag := 0, avail := w.avail + w.lag)
  }

  lemma RefillSlots(bufsz: nat, w: Win, bufs': seq<Buf>)
    requires w.base < |w.bufs| && w.lag + w.cnt < |w.bufs|
    requires forall k :: 0 <= k < |w.bufs| ==> (w.bufs[RingIdxIncr(w.base, k, |w.bufs|)].valid <==> k < w.lag + w.cnt)
    requires forall k :: w.lag + w.cnt <= k < |w.bufs| ==> w.bufs[RingIdxIncr(w.base, k, |w.bufs|)].len == bufsz
    requires Refilled(w.bufs, bufs', w.base, w.lag, bufsz)
    ensures var at := RingIdxIncr(w.base, w.lag, |w.bufs|);
            && (forall k :: 0 <= k < |w.bufs| ==> (bufs'[RingIdxIncr(at, k, |w.bufs|)].valid <==> k < w.cnt))
            && (forall k :: w.cnt <= k < |w.bufs| ==> bufs'[RingIdxIncr(at, k, |w.bufs|)].len == bufsz)
            && (forall k :: 0 <= k < w.cnt ==>
               bufs'[RingIdxIncr(at, k, |w.bufs|)] == w.bufs[RingIdxIncr(at, k, |w.bufs|)])
  {
    var n, at := |w.bufs|, RingIdxIncr(w.base, w.lag, |w.bufs|);
    forall k | 0 <= k < n
      ensures RingIdxIncr(at, k, n) == RingIdxIncr(w.base, if k + w.lag < n then k + w.lag else k + w.lag - n, n)
    {
    }
  }

  /** Handing the drained buffers back leaves the unread bytes alone. */
  lemma RefillKeeps(bufsz: nat, mem: seq<Byte>, w: Win, bufs': seq<Buf>)
    requires Inv(bufsz, mem, w) && Refilled(w.bufs, bufs', w.base, w.lag, bufsz)
    ensures Inv(bufsz, mem, Refill(w, bufs')) && Pending(mem, Refill(w, bufs')) == Pending(mem, w)
  {
    var at := RingIdxIncr(w.base, w.lag, |w.bufs|);
    RefillSlots(bufsz, w, bufs');
    assert RingIdxIncr(at, 0, |w.bufs|) == at;
    GatherFrame(mem, w.bufs, mem, bufs', at, w.cnt);
  }

  /** Refilling the drained buffers before or after trimming the next one is the same. */
  lemma RefillThenTrim(bufs: seq<Buf>, mid: seq<Buf>, at: nat, count: nat, bufsz: nat, foff: nat)
    requires Refilled(bufs, mid, at, count, bufsz)
    ensures var s := RingIdxIncr(at, count, |bufs|);
            s < |bufs| && Refilled(TrimAt(bufs, s, foff), TrimAt(mid, s, foff), at, count, bufsz)
  {
    var n, s := |bufs|, RingIdxIncr(at, count, |bufs|);
    var before, after := TrimAt(bufs, s, foff), TrimAt(mid, s, foff);
    assert mid[s] == bufs[s];
    forall k | 0 <= k < n
      ensures var t := RingIdxIncr(at, k, n); after[t] == if k < count then Recycled(before[t], bufsz) else before[t]
    {
      var t := RingIdxIncr(at, k, n);
      assert t == s <==> k == count;
    }
  }

  // ----- a read as the queue performs it -----

  /** The queue's ring: refilling due from `base`, unread from `head`, new packets at `upto`. */
  function WinOf(bufs: seq<Buf>, base: nat, head: nat, upto: nat, avail: nat, pktDlen: nat): Win
    requires base < |bufs| && head < |bufs| && upto < |bufs|
  {
    Win(bufs, base, RingIdxDelta(head, base, |bufs|), RingIdxDelta(upto, head, |bufs|), avail, pktDlen)
  }

  lemma PendingIsGather(mem: seq<Byte>, bufs: seq<Buf>, base: nat, head: nat, upto: nat, avail: nat, pktDlen: nat)
    requires base < |bufs| && head < |bufs| && upto < |bufs|
    requires RingIdxDelta(head, base, |bufs|) + RingIdxDelta(upto, head, |bufs|) < |bufs|
    ensures Pending(mem, WinOf(bufs, base, head, upto, avail, pktDlen)) ==
            Gather(mem, bufs, head, RingIdxDelta(upto, head, |bufs|))
  {
  }

  lemma Advance(base: nat, head: nat, upto: nat, i: nat, n: nat)
    requires base < n && head < n && upto < n && i <= RingIdxDelta(upto, head, n)
    requires RingIdxDelta(head, base, n) + RingIdxDelta(upto, head, n) < n
    ensures var next := RingIdxIncr(head, i, n);
            && next < n && next == RingIdxIncr(base, RingIdxDelta(head, base, n) + i, n)
            && RingIdxDelta(next, base, n) == RingIdxDelta(head, base, n) + i
            && RingIdxDelta(upto, next, n) == RingIdxDelta(upto, head, n) - i
  {
  }

  /** `u` is `w` after a read that took `copied` bytes. */
  ghost predicate Drained(mem: seq<Byte>, w: Win, i: nat, foff: nat, copied: nat, u: Win) {
    && CanDrain(w, i, foff) && copied == Taken(mem, w, i, foff) <= w.pktDlen && u == Drain(mem, w, i, foff)
  }

  /** `u` is `w` after handing back the buffers that were drained. */
  ghost predicate HandedBack(bufsz: nat, w: Win, u: Win) {
    Refilled(w.bufs, u.bufs, w.base, w.lag, bufsz) && u == Refill(w, u.bufs)
  }

  /** A read that leaves refilling to its caller. */
  lemma ReadKeeps(bufsz: nat, mem: seq<Byte>, bufs: seq<Buf>, base: nat, head: nat, upto: nat, avail: nat, pktDlen: nat,
                  i: nat, foff: nat, copied: nat)
    requires base < |bufs| && head < |bufs| && upto < |bufs|
    requires Inv(bufsz, mem, WinOf(bufs, base, head, upto, avail, pktDlen))
    requires i <= RingIdxDelta(upto, head, |bufs|)
    requires foff > 0 ==> i < RingIdxDelta(upto, head, |bufs|) && foff <= bufs[RingIdxIncr(head, i, |bufs|)].len
    requires copied == |Gather(mem, bufs, head, i)| + foff
    ensures var next := RingIdxIncr(head, i, |bufs|);
            && next < |bufs| && copied <= pktDlen == |Gather(mem, bufs, head, RingIdxDelta(upto, head, |bufs|))|
            && Drained(mem, WinOf(bufs, base, head, upto, avail, pktDlen), i, foff, copied,
                       WinOf(TrimAt(bufs, next, foff), base, next, upto, avail, pktDlen - copied))
            && Inv(bufsz, mem, WinOf(TrimAt(bufs, next, foff), base, next, upto, avail, pktDlen - copied))
            && Gather(mem, TrimAt(bufs, next, foff), next, RingIdxDelta(upto, next, |bufs|))
               == Gather(mem, bufs, head, RingIdxDelta(upto, head, |bufs|))[copied..]
  {
    hide Gather, Inv;
    var w := WinOf(bufs, base, head, upto, avail, pktDlen);
    var next := RingIdxIncr(head, i, |bufs|);
    InvShape(bufsz, mem, w);
    Advance(base, head, upto, i, |bufs|);
    assert CanDrain(w, i, foff);
    DrainKeeps(bufsz, mem, w, i, foff);
    assert Drain(mem, w, i, foff) == WinOf(TrimAt(bufs, next, foff), base, next, upto, avail, pktDlen - copied);
    PendingIsGather(mem, bufs, base, head, upto, avail, pktDlen);
    PendingIsGather(mem, TrimAt(bufs, next, foff), base, next, upto, avail, pktDlen - copied);
  }

  lemma InvShape(bufsz: nat, mem: seq<Byte>, w: Win)
    requires Inv(bufsz, mem, w)
    ensures w.base < |w.bufs| && w.lag + w.cnt < |w.bufs| && w.avail + w.lag + w.cnt == |w.bufs| - 1
    ensures w.pktDlen == |Pending(mem, w)|
  {
  }

  /** A read that hands the buffers it emptied straight back. */
  lemma ReadAndRefillKeeps(bufsz: nat, mem: seq<Byte>, bufs: seq<Buf>, mid: seq<Buf>, head: nat, upto: nat, avail: nat,
                           pktDlen: nat, i: nat, foff: nat, copied: nat)
    requires head < |bufs| && upto < |bufs|
    requires Inv(bufsz, mem, WinOf(bufs, head, head, upto, avail, pktDlen))
    requires i <= RingIdxDelta(upto, head, |bufs|)
    requires foff > 0 ==> i < RingIdxDelta(upto, head, |bufs|) && foff <= bufs[RingIdxIncr(head, i, |bufs|)].len
    requires copied == |Gather(mem, bufs, head, i)| + foff && Refilled(bufs, mid, head, i, bufsz)
    ensures var next := RingIdxIncr(head, i, |bufs|);
            && next < |bufs| == |mid| &&
               copied <= pktDlen == |Gather(mem, bufs, head, RingIdxDelta(upto, head, |bufs|))|
            && var w := WinOf(TrimAt(bufs, next, foff), head, next, upto, avail, pktDlen - copied);
            && Drained(mem, WinOf(bufs, head, head, upto, avail, pktDlen), i, foff, copied, w)
            && HandedBack(bufsz, w, WinOf(TrimAt(mid, next, foff), next, next, upto, avail + i, pktDlen - copied))
            && Inv(bufsz, mem, WinOf(TrimAt(mid, next, foff), next, next, upto, avail + i, pktDlen - copied))
            && Gather(mem, TrimAt(mid, next, foff), next, RingIdxDelta(upto, next, |bufs|))
               == Gather(mem, bufs, head, RingIdxDelta(upto, head, |bufs|))[copied..]
  {
    hide Gather, Inv, Refilled;
    var next := RingIdxIncr(head, i, |bufs|);
    ReadKeeps(bufsz, mem, bufs, head, head, upto, avail, pktDlen, i, foff, copied);
    var w := WinOf(TrimAt(bufs, next, foff), head, next, upto, avail, pktDlen - copied);
    InvShape(bufsz, mem, w);
    RefillThenTrim(bufs, mid, head, i, bufsz, foff);
    RefilledLength(bufs, mid, head, i, bufsz);
    RefillKeeps(bufsz, mem, w, TrimAt(mid, next, foff));
    assert Refill(w, TrimAt(mid, next, foff)) ==
           WinOf(TrimAt(mid, next, foff), next, next, upto, avail + i, pktDlen - copied);
    InvShape(bufsz, mem, Refill(w, TrimAt(mid, next, foff)));
    PendingIsGather(mem, TrimAt(mid, next, foff), next, next, upto, avail + i, pktDlen - copied);
    PendingIsGather(mem, TrimAt(bufs, next, foff), head, next, upto, avail, pktDlen - copied);
  }

  lemma RefilledLength(bufs: seq<Buf>, bufs': seq<Buf>, at: nat, count: nat, bufsz: nat)
    requires Refilled(bufs, bufs', at, count, bufsz)
    ensures |bufs'| == |bufs|
  {
  }

  /** Handing back the buffers between `base` and `head`. */
  lemma HandBack(bufsz: nat, mem: seq<Byte>, bufs: seq<Buf>, bufs': seq<Buf>, base: nat, head: nat, upto: nat,
                 avail: nat, pktDlen: nat)
    requires base < |bufs| && head < |bufs| && upto < |bufs|
    requires Inv(bufsz, mem, WinOf(bufs, base, head, upto, avail, pktDlen))
    requires Refilled(bufs, bufs', base, RingIdxDelta(head, base, |bufs|), bufsz)
    ensures |bufs'| == |bufs|
    ensures HandedBack(bufsz, WinOf(bufs, base, head, upto, avail, pktDlen),
                       WinOf(bufs', head, head, upto, avail + RingIdxDelta(head, base, |bufs|), pktDlen))
    ensures Inv(bufsz, mem, WinOf(bufs', head, head, upto, avail + RingIdxDelta(head, base, |bufs|), pktDlen))
    ensures Gather(mem, bufs', head, RingIdxDelta(upto, head, |bufs|)) ==
            Gather(mem, bufs, head, RingIdxDelta(upto, head, |bufs|))
  {
    hide Gather, Inv, Refilled;
    var w := WinOf(bufs, base, head, upto, avail, pktDlen);
    InvShape(bufsz, mem, w);
    RefilledLength(bufs, bufs', base, w.lag, bufsz);
    RefillKeeps(bufsz, mem, w, bufs');
    assert Refill(w, bufs') == WinOf(bufs', head, head, upto, avail + w.lag, pktDlen);
    PendingIsGather(mem, bufs, base, head, upto, avail, pktDlen);
    InvShape(bufsz, mem, Refill(w, bufs'));
    PendingIsGather(mem, bufs', head, head, upto, avail + w.lag, pktDlen);
  }
}
