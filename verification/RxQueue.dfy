/** The streaming receive queue: packets in, read requests out (qdma_st_c2h.c). */
module RxQueue {
  import opened Ring
  import opened Bits
  import opened BufferCount
  import opened ScatterGather
  import opened ColourRing
  import opened RxModel
  import opened RxSteps
  import opened RxPackets
  import opened RxExact
  import opened RxRequest
  import RxRuns

  const EBUSY := 16
  const ENODATA := 61

  function Min(a: nat, b: nat): nat { if a <= b then a else b }

  /** Chunks laid end to end. */
  function Flat(chunks: seq<seq<Byte>>): seq<Byte> {
    if chunks == [] then [] else Flat(chunks[..|chunks| - 1]) + chunks[|chunks| - 1]
  }

  /** How many completion entries one call takes: no budget means all of them. */
  function Budgeted(budget: nat, waiting: nat): nat {
    if budget == 0 then waiting else Min(budget, waiting)
  }

  class RecvQueue {
    const bufsz: nat
    const pgShift: nat
    const pgMask: nat
    const bufs: array<Buf>
    var mem: seq<Byte>
    var pidx: nat
    var pidxPend: nat
    var avail: nat
    var pktDlen: nat
    var posted: nat
    var cidxCmpt: nat
    var color: bool
    var online: bool
    var stopWait: bool
    var pend: seq<ReadReq>

    /** What each completed read handed to its caller, in the order of completion. */
    ghost var done: seq<seq<Byte>>
    /** Packets that the device has written to memory and the queue has not accepted, and all
        bytes that it ever wrote. */
    var flying: seq<seq<Byte>>
    ghost var sent: seq<Byte>

    ghost predicate Config() {
      0 < bufsz && Pow2(pgShift) == GetNextPowof2(bufsz) && pgMask == Pow2(pgShift) - 1
    }

    /** The ring with refilling due from `base` on and packets up to `upto`. */
    ghost function View(base: nat, upto: nat): Win
      requires base < bufs.Length && pidxPend < bufs.Length && upto < bufs.Length
      reads `pidxPend, `avail, `pktDlen, bufs
    {
      WinOf(bufs[..], base, pidxPend, upto, avail, pktDlen)
    }

    /** The run so far, if `taken` is what readers were given: see `RxRuns`. */
    ghost predicate IntactTo(base: nat, upto: nat, taken: seq<Byte>)
      requires base < bufs.Length && pidxPend < bufs.Length && upto < bufs.Length
      reads `mem, `pidxPend, `avail, `pktDlen, `flying, `sent, bufs
    {
      RxRuns.Good(bufsz, RxRuns.Rx(mem, View(base, upto), flying, sent, taken))
    }

    // ----- packets -----

    /** The marking loop of `rcv_pkt`; `warned` tells whether its WARN_ON fired. */
    method MarkValid(at: nat, fl: nat) returns (warned: bool)
      requires at < bufs.Length && fl <= bufs.Length
      modifies bufs
      ensures forall k :: 0 <= k < bufs.Length ==>
                var s := RingIdxIncr(at, k, bufs.Length);
                bufs[s] == if k < fl then old(bufs[s]).(valid := true) else old(bufs[s])
      ensures warned <==> exists k :: 0 <= k < fl && old(bufs[RingIdxIncr(at, k, bufs.Length)].valid)
    {
      warned := false;
      var s, n := at, bufs.Length;
      for i := 0 to fl
        invariant s == if i < n then RingIdxIncr(at, i, n) else at
        invariant forall k :: 0 <= k < n ==>
                    var t := RingIdxIncr(at, k, n);
                    bufs[t] == if k < i then old(bufs[t]).(valid := true) else old(bufs[t])
        invariant warned <==> exists k :: 0 <= k < i && old(bufs[RingIdxIncr(at, k, n)].valid)
      {
        warned := warned || bufs[s].valid;
        bufs[s] := bufs[s].(valid := true);
        s := if s + 1 == n then 0 else s + 1;
      }
    }

    /** `rcv_pkt` without an upper-layer handler. */
    method RcvPkt(at: nat, len: nat) returns (rv: int, next: nat, warned: bool)
      requires Config() && at < bufs.Length && avail < bufs.Length
      requires Count(len, bufsz) <= bufs.Length
      modifies bufs, `avail, `pktDlen
      ensures avail < bufs.Length
      ensures old(avail) < Count(len, bufsz) ==>
                && rv == -EBUSY && next == at && !warned && avail == old(avail) && pktDlen == old(pktDlen)
                && var last := RingIdxIncr(at, Count(len, bufsz) - 1, bufs.Length);
                   && last < bufs.Length
                   && bufs[..] == old(bufs[..])[last := old(bufs[..])[last].(len := LastOf(len, bufsz))]
      ensures Count(len, bufsz) <= old(avail) ==>
                && rv == 0 && next == RingIdxIncr(at, Count(len, bufsz), bufs.Length)
                && avail == old(avail) - Count(len, bufsz) && pktDlen == old(pktDlen) + len
                && Marks(old(bufs[..]), bufs[..], at, Count(len, bufsz), LastOf(len, bufsz))
      ensures Count(len, bufsz) <= old(avail) ==>
                (warned <==> exists k :: 0 <= k < Count(len, bufsz) && old(bufs[RingIdxIncr(at, k, bufs.Length)].valid))
    {
      hide GetNextPowof2, Pow2, CountsRight, Splits, Count, LastOf;
      warned := false;
      var flNr, lLen := GetFlNr(len, bufsz, pgShift, pgMask);
      if len == 0 { NoneLast(bufsz); }
      var n := bufs.Length;
      var last := RingIdxIncr(at, flNr - 1, n);
      next := RingIdxIncr(last, 1, n);
      bufs[last] := bufs[last].(len := if len == 0 then 0 else lLen);
      if avail < flNr {
        return -EBUSY, at, false;
      }
      avail := avail - flNr;
      warned := MarkValid(at, flNr);
      pktDlen := pktDlen + len;
      rv := 0;
    }

    // ----- refilling -----

    /** `qdma_flq_refill` with recycled buffers. */
    method Refill(at: nat, count: nat)
      requires at < bufs.Length && count < bufs.Length
      modifies bufs, `avail
      ensures Refilled(old(bufs[..]), bufs[..], at, count, bufsz) && avail == old(avail) + count
    {
      var idx := at;
      for i := 0 to count
        invariant idx == if at + i <= bufs.Length then at + i else at + i - bufs.Length
        invariant avail == old(avail) + i
        invariant forall k :: 0 <= k < bufs.Length ==>
                    var s := RingIdxIncr(at, k, bufs.Length);
                    bufs[s] == if k < i then Recycled(old(bufs[s]), bufsz) else old(bufs[s])
      {
        if idx == bufs.Length {
          idx := 0;
        }
        bufs[idx] := bufs[idx].(len := bufsz, valid := false);
        avail, idx := avail + 1, idx + 1;
      }
    }

    // ----- reading -----

    /** The copying loops of `descq_st_c2h_read`: empty `i` buffers and `foff` bytes of the next
        into the request, starting at byte `pos` of its destination. */
    method CopyBuffers(req: ReadReq, cnt: nat, ghost pos: nat)
        returns (i: nat, foff: nat, j: nat, tsgoff: nat, copied: nat)
      requires pidxPend < bufs.Length && cnt < bufs.Length && req.dst as object != bufs as object
      requires req.dst.Length == Total(req.sgl) && Placed(req.sgl, req.sgIdx, req.sgOffset, pos)
      modifies req.dst
      ensures bufs[..] == old(bufs[..])
      ensures i <= cnt && (foff > 0 ==> i < cnt && foff <= bufs[RingIdxIncr(pidxPend, i, bufs.Length)].len)
      ensures copied == |Gather(mem, bufs[..], pidxPend, i)| + foff
      ensures Placed(req.sgl, j, tsgoff, pos + copied)
      ensures var all := Gather(mem, bufs[..], pidxPend, cnt);
              && copied <= |all| && Overlaid(old(req.dst[..]), req.dst[..], pos, all[..copied])
              && ((i == cnt && copied == |all|) || pos + copied == Total(req.sgl))
    {
      hide Gather, Placed, Prefix, Bytes, Overlaid;
      i, foff, copied := 0, 0, 0;
      j, tsgoff := req.sgIdx, req.sgOffset;
      var s, n := pidxPend, bufs.Length;
      ghost var b := bufs[..];
      ghost var all := Gather(mem, b, pidxPend, cnt);
      NothingCopied(mem, b, pidxPend, all, req.sgl, j, tsgoff, pos, req.dst[..]);
      while i < cnt && j < |req.sgl|
        invariant bufs[..] == b
        invariant i <= cnt && s == RingIdxIncr(pidxPend, i, n) && s < n && j <= |req.sgl|
        invariant foff > 0 ==> i < cnt && foff <= bufs[s].len && j == |req.sgl|
        invariant copied == |Gather(mem, b, pidxPend, i)| + foff && copied <= |all|
        invariant Placed(req.sgl, j, tsgoff, pos + copied)
        invariant Overlaid(old(req.dst[..]), req.dst[..], pos, all[..copied])
        decreases cnt - i, |req.sgl| - j
      {
        ghost var mid, now := req.dst[..], copied;
        foff, j, tsgoff := req.Fill(mem, bufs[s].addr, bufs[s].len, j, tsgoff, pos + copied);
        CopiedMore(mem, b, pidxPend, cnt, i, foff, old(req.dst[..]), mid, req.dst[..], pos);
        copied := copied + foff;
        PlacedWithin(req.sgl, j, tsgoff, pos + copied);
        if foff == bufs[s].len {
          s, i, foff := RingIdxIncr(s, 1, n), i + 1, 0;
        }
      }
      GatherPrefix(mem, b, pidxPend, cnt, i);
      PlacedWithin(req.sgl, j, tsgoff, pos + copied);
    }

    /** The ring is in order, with refilling due from `base` on and packets up to `upto`; the
        device may use no more buffers than are available. */
    ghost predicate RingTo(base: nat, upto: nat)
      reads `mem, `pidxPend, `avail, `pktDlen, `posted, bufs
    {
      && base < bufs.Length && upto < bufs.Length && pidxPend < bufs.Length && posted < bufs.Length
      && Inv(bufsz, mem, View(base, upto)) && Laid(bufs[..], bufsz, |mem|)
      && RingIdxDelta(posted, upto, bufs.Length) <= avail
    }

    ghost predicate RingOk(base: nat)
      reads `mem, `pidx, `pidxPend, `avail, `pktDlen, `posted, bufs
    {
      RingTo(base, pidx)
    }

    /** The unread bytes. */
    ghost function UnreadTo(upto: nat): seq<Byte>
      reads `mem, `pidxPend, bufs
      requires upto < bufs.Length && pidxPend < bufs.Length
    {
      Gather(mem, bufs[..], pidxPend, RingIdxDelta(upto, pidxPend, bufs.Length))
    }

    ghost function Unread(): seq<Byte>
      reads `mem, `pidx, `pidxPend, bufs
      requires pidx < bufs.Length && pidxPend < bufs.Length
    {
      UnreadTo(pidx)
    }

    lemma NothingUnread(base: nat)
      requires RingOk(base) && pidx == pidxPend
      ensures pidx < bufs.Length && Unread() == [] && pktDlen == 0
    {
      RingShape(base);
    }

    /** The end of `descq_st_c2h_read`: drop `i` buffers and `foff` bytes of the next. */
    method Settle(i: nat, foff: nat, copied: nat, updatePidx: bool, refill: bool, ghost base: nat)
      requires RingOk(base) && (refill ==> base == pidxPend) && (updatePidx ==> refill)
      requires i <= RingIdxDelta(pidx, pidxPend, bufs.Length)
      requires foff > 0 ==>
                 i < RingIdxDelta(pidx, pidxPend, bufs.Length) &&
                   foff <= bufs[RingIdxIncr(pidxPend, i, bufs.Length)].len
      requires copied == |Gather(mem, bufs[..], pidxPend, i)| + foff
      modifies bufs, `pidxPend, `avail, `pktDlen, `posted
      ensures RingOk(if refill then pidxPend else base) && base < bufs.Length && pidxPend < bufs.Length &&
              pidx < bufs.Length
      ensures copied <= |old(Unread())| == old(pktDlen)
      ensures Unread() == old(Unread())[copied..] && pktDlen == old(pktDlen) - copied
      ensures pidxPend == RingIdxIncr(old(pidxPend), i, bufs.Length)
      ensures !refill ==> Drained(mem, old(View(base, pidx)), i, foff, copied, View(base, pidx))
      ensures refill ==> exists u ::
                Drained(mem, old(View(base, pidx)), i, foff, copied, u) && HandedBack(bufsz, u, View(pidxPend, pidx))
      ensures !refill ==> avail == old(avail)
      ensures posted == if pidxPend != old(pidxPend) && updatePidx then RingIdxDecr(pidxPend, 1, bufs.Length)
                        else old(posted)
      ensures RingIdxDelta(posted, pidx, bufs.Length) >= old(RingIdxDelta(posted, pidx, bufs.Length))
    {
      hide Inv, Gather, Refilled, RingIdxDelta, RingIdxIncr, RingIdxDecr, Laid, Drained, HandedBack;
      var idx, n := pidxPend, bufs.Length;
      ghost var b := bufs[..];
      InvShape(bufsz, mem, View(base, pidx));
      StepsAway(idx, i, n);
      Advance(base, idx, pidx, i, n);
      if refill && i > 0 {
        Refill(idx, i);
      }
      ghost var mid := bufs[..];
      pidxPend := RingIdxIncr(idx, i, n);
      if foff > 0 {
        bufs[pidxPend] := Trim(bufs[pidxPend], foff);
      }
      assert bufs[..] == TrimAt(mid, pidxPend, foff);
      if refill {
        if i == 0 { NothingRefilled(b, idx, bufsz); }
        ReadAndRefillKeeps(bufsz, mem, b, mid, idx, pidx, old(avail), pktDlen, i, foff, copied);
        RxRuns.RefilledKeepsLaid(b, mid, idx, i, bufsz, |mem|);
      } else {
        ReadKeeps(bufsz, mem, b, base, idx, pidx, avail, pktDlen, i, foff, copied);
      }
      RxRuns.TrimKeepsLaid(mid, pidxPend, foff, bufsz, |mem|);
      PostedFits(pidxPend, pidx, n);
      if i > 0 && updatePidx {
        posted := RingIdxDecr(pidxPend, 1, n);
      }
      pktDlen := pktDlen - copied;
      InvShape(bufsz, mem, View(if refill then pidxPend else base, pidx));
    }

    /** The same, with what it means for the run so far: a read that hands back buffers keeps it
        intact if and only if it empties none or began with one that is at home. */
    method Drop(i: nat, foff: nat, copied: nat, updatePidx: bool, refill: bool, ghost base: nat, ghost taken: seq<Byte>)
      requires RingOk(base) && base < bufs.Length && pidxPend < bufs.Length && pidx < bufs.Length
      requires (refill ==> base == pidxPend) && (updatePidx ==> refill)
      requires i <= RingIdxDelta(pidx, pidxPend, bufs.Length)
      requires foff > 0 ==>
                 i < RingIdxDelta(pidx, pidxPend, bufs.Length) &&
                   foff <= bufs[RingIdxIncr(pidxPend, i, bufs.Length)].len
      requires copied == |Gather(mem, bufs[..], pidxPend, i)| + foff
      modifies bufs, `pidxPend, `avail, `pktDlen, `posted
      ensures RingOk(if refill then pidxPend else base) && pidxPend < bufs.Length && pidx < bufs.Length
      ensures copied <= |old(Unread())| == old(pktDlen)
      ensures Unread() == old(Unread())[copied..] && pktDlen == old(pktDlen) - copied
      ensures pidxPend == RingIdxIncr(old(pidxPend), i, bufs.Length)
      ensures !refill ==> avail == old(avail)
      ensures posted == if pidxPend != old(pidxPend) && updatePidx then RingIdxDecr(pidxPend, 1, bufs.Length)
                        else old(posted)
      ensures RingIdxDelta(posted, pidx, bufs.Length) >= old(RingIdxDelta(posted, pidx, bufs.Length))
      ensures old(IntactTo(base, pidx, taken)) ==>
                if refill
                then IntactTo(pidxPend, pidx, taken + old(Unread())[..copied])
                     <==> pidxPend == old(pidxPend) || AtHome(old(bufs[pidxPend]))
                else IntactTo(base, pidx, taken + old(Unread())[..copied])
      ensures SeatsBut(old(bufs[..]), bufs[..], pidxPend)
    {
      hide RecvQueue.RingOk, Gather, Drained, HandedBack, RxRuns.Good, RingIdxIncr, RingIdxDelta, Refilled;
      var idx := pidxPend;
      ghost var w, b, unread := View(base, pidx), bufs[..], Unread();
      RingShape(base);
      PendingIsGather(mem, b, base, idx, pidx, avail, pktDlen);
      ZeroDelta(base, base, bufs.Length);
      StepsAway(idx, i, bufs.Length);
      Advance(base, idx, pidx, i, bufs.Length);
      Settle(i, foff, copied, updatePidx, refill, base);
      ghost var u := View(if refill then pidxPend else base, pidx);
      if refill {
        ghost var v :| Drained(mem, w, i, foff, copied, v) && HandedBack(bufsz, v, u);
        DrainedSeats(bufsz, mem, w, i, foff, copied, v, u);
        if old(IntactTo(base, pidx, taken)) {
          RxRuns.HandedBackIsGoodIff(bufsz, mem, w, i, foff, copied, v, u, flying, sent, taken);
        }
      } else {
        DrainedSeats(bufsz, mem, w, i, foff, copied, u, u);
        if old(IntactTo(base, pidx, taken)) {
          RxRuns.DrainedIsGood(bufsz, mem, w, i, foff, copied, u, flying, sent, taken);
        }
      }
      assert SeatsBut(b, bufs[..], pidxPend);
    }

    /** The copying and the bookkeeping of a read that has something to do. */
    method HandOver(req: ReadReq, updatePidx: bool, refill: bool, ghost base: nat, ghost pos: nat,
                    ghost taken: seq<Byte>) returns (n: nat)
      requires RingOk(base) && base < bufs.Length && pidxPend < bufs.Length && pidx < bufs.Length
      requires (refill ==> base == pidxPend) && (updatePidx ==> refill) && req.dst as object != bufs as object
      requires req.dst.Length == Total(req.sgl) && Placed(req.sgl, req.sgIdx, req.sgOffset, pos)
      modifies bufs, req, req.dst, `pidxPend, `avail, `pktDlen, `posted
      ensures RingOk(if refill then pidxPend else base) && pidxPend < bufs.Length && pidx < bufs.Length
      ensures old(pidx == pidxPend) || pos + n < Total(req.sgl) ==> pidxPend == pidx
      ensures !refill ==> avail == old(avail)
      ensures posted == if pidxPend != old(pidxPend) && updatePidx then RingIdxDecr(pidxPend, 1, bufs.Length)
                        else old(posted)
      ensures RingIdxDelta(posted, pidx, bufs.Length) >= old(RingIdxDelta(posted, pidx, bufs.Length))
      ensures pos <= Total(req.sgl) && n == Min(Total(req.sgl) - pos, old(pktDlen))
      ensures n <= |old(Unread())| == old(pktDlen) && Unread() == old(Unread())[n..] && pktDlen == old(pktDlen) - n
      ensures Overlaid(old(req.dst[..]), req.dst[..], pos, old(Unread())[..n])
      ensures Placed(req.sgl, req.sgIdx, req.sgOffset, pos + n) && req.left == Sub32(old(req.left), n)
      ensures old(IntactTo(base, pidx, taken)) ==>
                if refill
                then IntactTo(pidxPend, pidx, taken + old(Unread())[..n])
                     <==> pidxPend == old(pidxPend) || AtHome(old(bufs[pidxPend]))
                else IntactTo(base, pidx, taken + old(Unread())[..n])
      ensures SeatsBut(old(bufs[..]), bufs[..], pidxPend)
    {
      hide RecvQueue.RingOk, RecvQueue.IntactTo, Gather, Placed, Overlaid, Prefix, SeatsBut;
      RingShape(base);
      var cnt := RingIdxDelta(pidx, pidxPend, bufs.Length);
      PlacedWithin(req.sgl, req.sgIdx, req.sgOffset, pos);
      var i, foff, j, tsgoff, copied := CopyBuffers(req, cnt, pos);
      PlacedWithin(req.sgl, j, tsgoff, pos + copied);
      Drop(i, foff, copied, updatePidx, refill, base, taken);
      req.sgIdx, req.sgOffset, req.left := j, tsgoff, Sub32(req.left, copied);
      n := copied;
    }

    /** `descq_st_c2h_read`: hand out as much as is there and fits, from the front. `taken` is what
        readers were given before. */
    method Read(req: ReadReq, updatePidx: bool, refill: bool, ghost base: nat, ghost pos: nat, ghost taken: seq<Byte>)
        returns (rv: int)
      requires RingOk(base) && base < bufs.Length && pidxPend < bufs.Length && pidx < bufs.Length
      requires (refill ==> base == pidxPend) && (updatePidx ==> refill) && req.dst as object != bufs as object
      requires req.dst.Length == Total(req.sgl) && Placed(req.sgl, req.sgIdx, req.sgOffset, pos)
      modifies bufs, req, req.dst, `pidxPend, `avail, `pktDlen, `posted
      ensures RingOk(if refill then pidxPend else base) && pidxPend < bufs.Length && pidx < bufs.Length
      ensures old(pidx == pidxPend) ==> pidxPend == pidx
      ensures old(pidx != pidxPend && 0 < |req.sgl| == req.sgIdx) <==> rv == -EINVAL
      ensures !refill ==> avail == old(avail)
      ensures posted == if pidxPend != old(pidxPend) && updatePidx then RingIdxDecr(pidxPend, 1, bufs.Length)
                        else old(posted)
      ensures RingIdxDelta(posted, pidx, bufs.Length) >= old(RingIdxDelta(posted, pidx, bufs.Length))
      ensures pos <= Total(req.sgl)
      ensures var n := Min(Total(req.sgl) - pos, old(pktDlen));
              && (rv == n || rv == -EINVAL)
              && n <= |old(Unread())| && pktDlen == old(pktDlen) - n
              && ReadOnce(Sink(old(req.dst[..]), pos, old(Unread())), Sink(req.dst[..], pos + n, Unread()))
              && Placed(req.sgl, req.sgIdx, req.sgOffset, pos + n)
              && req.left == Sub32(old(req.left), n)
              && (pos + n < Total(req.sgl) ==> pidxPend == pidx)
              && (old(IntactTo(base, pidx, taken)) ==>
                    if refill
                    then IntactTo(pidxPend, pidx, taken + old(Unread())[..n])
                         <==> pidxPend == old(pidxPend) || AtHome(old(bufs[pidxPend]))
                    else IntactTo(base, pidx, taken + old(Unread())[..n]))
              && SeatsBut(old(bufs[..]), bufs[..], pidxPend)
    {
      hide RecvQueue.RingOk, RecvQueue.IntactTo, Gather, Placed, Overlaid, Prefix;
      RingShape(base);
      PlacedWithin(req.sgl, req.sgIdx, req.sgOffset, pos);
      NothingCopied(mem, bufs[..], pidxPend, Unread(), req.sgl, req.sgIdx, req.sgOffset, pos, req.dst[..]);
      assert taken + Unread()[..0] == taken;
      if RingIdxDelta(pidx, pidxPend, bufs.Length) == 0 {
        return 0;
      }
      if req.sgIdx > 0 && req.sgIdx == |req.sgl| {
        return -EINVAL;
      }
      rv := HandOver(req, updatePidx, refill, base, pos, taken);
    }

    lemma RingShape(base: nat)
      requires RingOk(base)
      ensures base < bufs.Length && pidx < bufs.Length && pidxPend < bufs.Length && posted < bufs.Length
      ensures RingIdxDelta(pidx, pidxPend, bufs.Length) < bufs.Length && pktDlen == |Unread()|
      ensures RingIdxDelta(pidxPend, base, bufs.Length) + RingIdxDelta(pidx, pidxPend, bufs.Length) < bufs.Length
      ensures RingIdxDelta(pidxPend, base, bufs.Length) >= 0 && RingIdxDelta(pidx, pidxPend, bufs.Length) >= 0
      ensures base == pidxPend ==> avail + RingIdxDelta(pidx, pidxPend, bufs.Length) == bufs.Length - 1
    {
      InvShape(bufsz, mem, View(base, pidx));
      PendingIsGather(mem, bufs[..], base, pidxPend, pidx, avail, pktDlen);
    }

    // ----- waiting requests -----

    /** Distinct requests that have received nothing yet. */
    ghost predicate Unserved(rs: seq<ReadReq>)
      reads rs
    {
      && (forall r :: r in rs ==> r.Valid() && 0 < r.left == r.dst.Length && r.dst as object != bufs as object)
      && (forall k, l :: 0 <= k < l < |rs| ==> rs[k] != rs[l] && rs[k].dst != rs[l].dst)
    }

    /** A request that may wait at the head of others. */
    ghost predicate Ahead(r: ReadReq, rs: seq<ReadReq>)
      reads r
    {
      r.Valid() && r.dst as object != bufs as object && r !in rs && forall q :: q in rs ==> q.dst != r.dst
    }

    /** Waiting requests: distinct and unfinished, only the first of them served. */
    ghost predicate Waiting(rs: seq<ReadReq>)
      reads rs
    {
      rs != [] ==> Ahead(rs[0], rs[1..]) && 0 < rs[0].left && Unserved(rs[1..])
    }

    ghost predicate Queued()
      reads `pend, pend
    {
      Waiting(pend)
    }

    lemma WaitingMore(rs: seq<ReadReq>, req: ReadReq)
      requires Waiting(rs) && Ahead(req, rs) && 0 < req.left
      requires rs != [] ==> req.left == req.dst.Length
      ensures Waiting(rs + [req])
    {
      if rs != [] { assert (rs + [req])[1..] == rs[1..] + [req]; }
    }

    lemma UnservedWaits(rs: seq<ReadReq>)
      requires Unserved(rs)
      ensures Waiting(rs) && (rs != [] ==> rs[0].Valid() && rs[0].Got() == [])
    {
    }

    lemma QueuedApart()
      requires Queued()
      ensures forall r :: r in pend ==> r.Valid() && r.dst as object != bufs as object
      ensures forall k, l :: 0 <= k < l < |pend| ==> pend[k].dst != pend[l].dst
    {
      assert forall k :: 0 < k < |pend| ==> pend[k] == pend[1..][k - 1];
    }

    /** What readers were given so far: completed reads in order, then the first waiting one. */
    ghost function HandedOut(): seq<Byte>
      reads `done, `pend, pend, set r | r in pend :: r.dst
      requires Queued()
    {
      Flat(done) + (if pend == [] then [] else pend[0].Got())
    }

    /** Everything handed out so far, followed by what is still unread. */
    ghost function Account(): seq<Byte>
      reads `done, `mem, `pidx, `pidxPend, `pend, bufs, pend, set r | r in pend :: r.dst
      requires pidx < bufs.Length && pidxPend < bufs.Length && Queued()
    {
      HandedOut() + Unread()
    }

    /** Reading for a waiting request moves bytes from the unread ones to the request. */
    method ReadFor(r: ReadReq, ghost base: nat, ghost taken: seq<Byte>) returns (rv: int)
      requires RingOk(base) && base < bufs.Length && pidxPend < bufs.Length && pidx < bufs.Length
      requires r.Valid() && 0 < r.left && r.dst as object != bufs as object
      modifies bufs, r, r.dst, `pidxPend, `avail, `pktDlen, `posted
      ensures RingOk(base) && pidxPend < bufs.Length && pidx < bufs.Length && r.Valid()
      ensures avail == old(avail) && posted == old(posted)
      ensures 0 <= rv <= |old(Unread())| && r.Got() == old(r.Got()) + old(Unread())[..rv] &&
              Unread() == old(Unread())[rv..]
      ensures r.left > 0 ==> pidxPend == pidx
      ensures old(IntactTo(base, pidx, taken)) ==> IntactTo(base, pidx, taken + old(Unread())[..rv])
      ensures SeatsBut(old(bufs[..]), bufs[..], pidxPend)
    {
      hide RecvQueue.RingOk, RecvQueue.UnreadTo, RecvQueue.IntactTo, Placed, Overlaid, Prefix, RingIdxDelta,
        RingIdxIncr;
      ghost var pos: nat := r.dst.Length - r.left;
      RingShape(base);
      ghost var was, unread := r.dst[..], Unread();
      PlacedWithin(r.sgl, r.sgIdx, r.sgOffset, pos);
      rv := Read(r, false, false, base, pos, taken);
      Handed(was, r.dst[..], pos, unread, rv);
      RingShape(base);
    }

    /** `qdma_sgt_req_done` for a head that has all its bytes. */
    method FinishHead()
      requires pend != [] && pend[0].Valid() && pend[0].left == 0 && Unserved(pend[1..])
      modifies `pend, `done
      ensures Queued() && pend == old(pend)[1..] && done == old(done) + [old(pend)[0].dst[..]]
      ensures HandedOut() == Flat(old(done)) + old(pend)[0].Got()
    {
      hide RecvQueue.Unserved, ReadReq.Valid, Flat;
      FlatMore(done, pend[0].dst[..]);
      UnservedWaits(pend[1..]);
      done := done + [pend[0].dst[..]];
      pend := pend[1..];
    }

    /** One round of `qdma_c2h_packets_proc_dflt`: serve the request at the head of the list, and
        complete it (`qdma_sgt_req_done`) if nothing is left to copy. */
    method ServeHead(ghost base: nat) returns (finished: bool)
      requires RingOk(base) && base < bufs.Length && pidxPend < bufs.Length && pidx < bufs.Length && Queued() &&
               pend != []
      modifies bufs, pend[0], pend[0].dst, `pidxPend, `avail, `pktDlen, `posted, `pend, `done
      ensures RingOk(base) && pidxPend < bufs.Length && pidx < bufs.Length && Queued() && Account() == old(Account())
      ensures avail == old(avail) && posted == old(posted)
      ensures finished ==> pend == old(pend)[1..] && done == old(done) + [old(pend)[0].dst[..]]
      ensures !finished ==> pend == old(pend) && done == old(done) && pidxPend == pidx
      ensures old(IntactTo(base, pidx, HandedOut())) ==> IntactTo(base, pidx, HandedOut())
      ensures SeatsBut(old(bufs[..]), bufs[..], pidxPend)
    {
      hide RecvQueue.RingOk, RecvQueue.Unread, RecvQueue.IntactTo, RecvQueue.Unserved, ReadReq.Valid, Flat;
      var r := pend[0];
      ghost var unread, before := Unread(), HandedOut();
      var rv := ReadFor(r, base, before);
      if rv < 0 {
        assert false;
      }
      assert before + unread == (before + unread[..rv]) + unread[rv..];
      finished := r.left == 0;
      if finished {
        FinishHead();
      }
      assert HandedOut() == before + unread[..rv];
    }

    /** `qdma_c2h_packets_proc_dflt`: requests are served and completed in the order in which
        they were queued, as far as the unread bytes go. */
    method PacketsProcDflt(ghost base: nat)
      requires RingOk(base) && base < bufs.Length && pidxPend < bufs.Length && pidx < bufs.Length && Queued()
      modifies bufs, pend, set r | r in pend :: r.dst
      modifies `pidxPend, `avail, `pktDlen, `posted, `pend, `done
      ensures RingOk(base) && pidxPend < bufs.Length && pidx < bufs.Length && Queued() && Account() == old(Account())
      ensures avail == old(avail) && posted == old(posted)
      ensures pend != [] ==> pidxPend == pidx
      ensures Completed(old(pend), old(done), pend, done)
      ensures old(IntactTo(base, pidx, HandedOut())) ==> IntactTo(base, pidx, HandedOut())
      ensures old(|pend|) <= 1 ==> SeatsBut(old(bufs[..]), bufs[..], pidxPend)
    {
      hide RecvQueue.RingOk, RecvQueue.Unread, RecvQueue.Account, RecvQueue.HandedOut, RecvQueue.IntactTo,
        RecvQueue.Queued, ReadReq.Valid;
      QueuedApart();
      var more := true;
      ghost var m := 0;
      while more && pend != []
        invariant RingOk(base) && pidx < bufs.Length && pidxPend < bufs.Length
        invariant Queued() && Account() == old(Account())
        invariant avail == old(avail) && posted == old(posted)
        invariant !more ==> pidxPend == pidx
        invariant m <= |old(pend)| && pend == old(pend)[m..]
        invariant |done| == |old(done)| + m && old(done) <= done
        invariant forall k :: 0 <= k < m ==> done[|old(done)| + k] == old(pend)[k].dst[..]
        invariant old(IntactTo(base, pidx, HandedOut())) ==> IntactTo(base, pidx, HandedOut())
        invariant m == 0 && more ==> bufs[..] == old(bufs[..])
        invariant old(|pend|) <= 1 ==> SeatsBut(old(bufs[..]), bufs[..], pidxPend)
        decreases |pend|, more
      {
        more := ServeHead(base);
        if more { m := m + 1; }
      }
    }

    /** Some requests at the front of the list were completed, each with the contents of its
        destination, and nothing else was. */
    ghost predicate Completed(pend0: seq<ReadReq>, done0: seq<seq<Byte>>, pend1: seq<ReadReq>, done1: seq<seq<Byte>>)
      reads set r | r in pend0 :: r.dst
    {
      var m := |pend0| - |pend1|;
      && 0 <= m && pend1 == pend0[m..]
      && |done1| == |done0| + m && done0 <= done1
      && forall k :: 0 <= k < m ==> done1[|done0| + k] == pend0[k].dst[..]
    }

    // ----- completions -----

    /** `rcv_pkt` for the packet that the device wrote next, in posted buffers: it is never
        refused, its buffers were free, and its bytes go behind the unread ones. */
    method Accept(cur: nat, len: nat, ghost taken: seq<Byte>) returns (rv: int, next: nat, warned: bool)
      requires Config() && RingTo(pidxPend, cur) && cur < bufs.Length && pidxPend < bufs.Length && flying != [] &&
               |flying[0]| == len
      requires CountsRight(len, bufsz) && Need(len, bufsz) <= RingIdxDelta(posted, cur, bufs.Length)
      modifies bufs, `avail, `pktDlen, `flying
      ensures rv == 0 && !warned && RingTo(pidxPend, next) && next < bufs.Length && flying == old(flying)[1..]
      ensures next == RingIdxIncr(cur, Need(len, bufsz), bufs.Length) && SameAddrs(old(bufs[..]), bufs[..])
      ensures RingIdxDelta(posted, next, bufs.Length) == RingIdxDelta(posted, cur, bufs.Length) - Need(len, bufsz)
      ensures UnreadTo(next) == old(UnreadTo(cur)) + PacketBytes(mem, old(bufs[..]), cur, len, bufsz)
      ensures Marks(old(bufs[..]), bufs[..], cur, Need(len, bufsz), LastLen(len, bufsz))
      ensures old(IntactTo(pidxPend, cur, taken)) ==> IntactTo(pidxPend, next, taken)
    {
      hide Inv, Gather, Marks, CountsRight, SameAddrs, Need, LastLen, Count, LastOf, PacketBytes, RingIdxDelta,
        RingIdxIncr, Laid, RxRuns.Good;
      ghost var b, w := bufs[..], View(pidxPend, cur);
      FreeSlots(bufsz, mem, b, pidxPend, cur, avail, pktDlen);
      ZeroDelta(pidxPend, pidxPend, bufs.Length);
      RightCount(len, bufsz);
      rv, next, warned := RcvPkt(cur, len);
      AcceptKeeps(bufsz, mem, b, bufs[..], pidxPend, cur, posted, old(avail), old(pktDlen), len);
      RxRuns.MarksKeepLaid(b, bufs[..], cur, Need(len, bufsz), LastLen(len, bufsz), bufsz, |mem|);
      if old(IntactTo(pidxPend, cur, taken)) {
        NextAtIs(b, pidxPend, cur, avail, pktDlen);
        RxRuns.AcceptedIsGood(bufsz, mem, w, View(pidxPend, next), flying, sent, taken);
      }
      flying := flying[1..];
    }

    /** One completion entry: the packet is accepted and the entry stepped over. `rest` are the
        lengths of the packets that this call will still take, this one first. */
    method TakeOne(ring: seq<Slot<nat>>, cur: nat, ghost unread: seq<nat>, ghost rest: seq<nat>, ghost taken: seq<Byte>)
        returns (rv: int, next: nat)
      requires Config() && RingTo(pidxPend, cur) && cur < bufs.Length && pidxPend < bufs.Length
      requires Consistent(ring, cidxCmpt, color, unread) && unread != [] && rest != [] && rest[0] == unread[0]
      requires cidxCmpt < |ring| && ring[cidxCmpt].data == unread[0] && unread <= RxRuns.Lens(flying)
      requires NeedAll(RxRuns.Lens(flying), bufsz) <= RingIdxDelta(posted, cur, bufs.Length) < bufs.Length
      requires forall k :: 0 <= k < |flying| ==> CountsRight(|flying[k]|, bufsz)
      requires NeedAll(rest, bufsz) < bufs.Length
      modifies bufs, `avail, `pktDlen, `cidxCmpt, `color, `flying
      ensures rv == 0 && RingTo(pidxPend, next) && next < bufs.Length
      ensures Consistent(ring, cidxCmpt, color, unread[1..])
      ensures flying == old(flying)[1..] && unread[1..] <= RxRuns.Lens(flying)
      ensures NeedAll(RxRuns.Lens(flying), bufsz) <= RingIdxDelta(posted, next, bufs.Length) < bufs.Length
      ensures NeedAll(rest[1..], bufsz) < bufs.Length
      ensures RingIdxIncr(next, NeedAll(rest[1..], bufsz), bufs.Length) ==
              RingIdxIncr(cur, NeedAll(rest, bufsz), bufs.Length)
      ensures UnreadTo(next) + StreamBytes(mem, bufs[..], next, rest[1..], bufsz) ==
              old(UnreadTo(cur)) + StreamBytes(mem, old(bufs[..]), cur, rest, bufsz)
      ensures old(IntactTo(pidxPend, cur, taken)) ==> IntactTo(pidxPend, next, taken)
      ensures SameAddrs(old(bufs[..]), bufs[..])
    {
      hide RecvQueue.RingTo, RecvQueue.UnreadTo, RecvQueue.IntactTo, Consistent, CountsRight, Need, NeedAll,
        StreamBytes, PacketBytes, SameAddrs, Pow2, GetNextPowof2, RingIdxIncr, RingIdxDelta, Marks, RxRuns.Lens;
      ghost var b := bufs[..];
      StreamPeel(mem, b, b, cur, rest, bufsz);
      FirstFlies(flying, unread, bufsz);
      var warned;
      rv, next, warned := Accept(cur, ring[cidxCmpt].data, taken);
      if rv < 0 {
        return;
      }
      StreamPeel(mem, b, bufs[..], cur, rest, bufsz);
      IncrTwice(cur, Need(rest[0], bufsz), NeedAll(rest[1..], bufsz), bufs.Length);
      RingToShape(pidxPend, next);
      ConsumeKeeps(ring, cidxCmpt, color, unread);
      cidxCmpt, color := NextIdx(cidxCmpt, |ring|), NextColour(cidxCmpt, color, |ring|);
    }

    /** The loop of `descq_process_completion_st_c2h` over `budget` fresh completion entries, each
        giving the length of a packet; `unread` is what the device has reported and the queue has
        not seen. */
    method TakeCompletions(ring: seq<Slot<nat>>, budget: nat, ghost unread: seq<nat>, ghost taken: seq<Byte>)
        returns (cur: nat, procCnt: nat)
      requires Config() && RingOk(pidxPend) && pidx < bufs.Length && pidxPend < bufs.Length && Promised()
      requires Consistent(ring, cidxCmpt, color, unread) && budget <= |unread| && unread <= RxRuns.Lens(flying)
      modifies bufs, `avail, `pktDlen, `cidxCmpt, `color, `flying
      ensures procCnt == budget && Consistent(ring, cidxCmpt, color, unread[budget..])
      ensures RingTo(pidxPend, cur) &&
              cur == RingIdxIncr(pidx, NeedAll(unread[..budget], bufsz), bufs.Length) < bufs.Length
      ensures flying == old(flying)[budget..] && unread[budget..] <= RxRuns.Lens(flying)
      ensures NeedAll(unread[..budget], bufsz) < bufs.Length
      ensures NeedAll(RxRuns.Lens(flying), bufsz) <= RingIdxDelta(posted, cur, bufs.Length)
      ensures UnreadTo(cur) == old(Unread()) + StreamBytes(mem, old(bufs[..]), pidx, unread[..budget], bufsz)
      ensures old(IntactTo(pidxPend, pidx, taken)) ==> IntactTo(pidxPend, cur, taken)
      ensures SameAddrs(old(bufs[..]), bufs[..])
    {
      hide RecvQueue.RingTo, RecvQueue.UnreadTo, RecvQueue.IntactTo, Consistent, CountsRight, Need, NeedAll,
        StreamBytes, PacketBytes, SameAddrs, Pow2, GetNextPowof2, RingIdxIncr, RingIdxDelta, Marks, RxRuns.Lens;
      var n := bufs.Length;
      cur, procCnt := pidx, 0;
      RingToShape(pidxPend, cur);
      ghost var todo, b0 := unread[..budget], bufs[..];
      FlyingNeeds(flying, unread, budget, bufsz);
      ghost var all := Unread() + StreamBytes(mem, bufs[..], pidx, todo, bufsz);
      ghost var end := RingIdxIncr(pidx, NeedAll(todo, bufsz), n);
      ghost var rest := todo;
      SameAddrsSelf(b0);
      assert unread[0..] == unread && todo[0..] == todo && flying[0..] == flying;
      while procCnt < budget
        invariant procCnt <= budget && Config() && RingTo(pidxPend, cur) && 0 < n && cur < n && pidxPend < n
        invariant rest == todo[procCnt..] && Consistent(ring, cidxCmpt, color, unread[procCnt..])
        invariant flying == old(flying)[procCnt..] && unread[procCnt..] <= RxRuns.Lens(flying)
        invariant NeedAll(RxRuns.Lens(flying), bufsz) <= RingIdxDelta(posted, cur, n) < n
        invariant NeedAll(rest, bufsz) < n && end == RingIdxIncr(cur, NeedAll(rest, bufsz), n)
        invariant UnreadTo(cur) + StreamBytes(mem, bufs[..], cur, rest, bufsz) == all
        invariant old(IntactTo(pidxPend, pidx, taken)) ==> IntactTo(pidxPend, cur, taken)
        invariant SameAddrs(b0, bufs[..])
      {
        ColourTest(ring, cidxCmpt, color, unread[procCnt..]);
        if ring[cidxCmpt].color != color {
          break;
        }
        ghost var b := bufs[..];
        var rv, next := TakeOne(ring, cur, unread[procCnt..], rest, taken);
        if rv < 0 {
          break;
        }
        SameAddrsJoin(b0, b, bufs[..]);
        cur, procCnt, rest := next, procCnt + 1, rest[1..];
      }
      assert rest == [];
      RingToShape(pidxPend, cur);
      StreamOfNone(mem, bufs[..], cur, bufsz);
    }

    lemma RingToShape(base: nat, upto: nat)
      requires RingTo(base, upto)
      ensures base < bufs.Length && upto < bufs.Length && pidxPend < bufs.Length && posted < bufs.Length
      ensures 0 <= RingIdxDelta(posted, upto, bufs.Length) <= avail < bufs.Length
      ensures pktDlen == |UnreadTo(upto)|
      ensures RingIdxIncr(upto, 0, bufs.Length) == upto
    {
      InvShape(bufsz, mem, View(base, upto));
      PendingIsGather(mem, bufs[..], base, pidxPend, upto, avail, pktDlen);
    }

    /** What the device has written fits the buffers posted to it, and `get_fl_nr` counts its
        buffers right. */
    ghost predicate Promised()
      reads `flying, `posted, `pidx
      requires 0 < bufsz
    {
      && NeedAll(RxRuns.Lens(flying), bufsz) <= RingIdxDelta(posted, pidx, bufs.Length)
      && forall k :: 0 <= k < |flying| ==> CountsRight(|flying[k]|, bufsz)
    }

    // ----- whole operations -----

    /** The queue whenever its lock is free. Not one byte gets lost: what was handed out, is
        unread or not accepted yet is in number what the device wrote. */
    ghost predicate Sound()
      reads this, bufs, pend, set r | r in pend :: r.dst
    {
      && Config() && RingOk(pidxPend) && Queued() && pidx < bufs.Length && pidxPend < bufs.Length && Promised()
      && |Account()| + |RxRuns.Joined(flying)| == |sent|
    }

    /** Somebody waits only if nothing is unread. */
    ghost predicate Valid()
      reads this, bufs, pend, set r | r in pend :: r.dst
    {
      Sound() && (pend != [] ==> pidxPend == pidx)
    }

    /** And it is the very bytes that the device wrote, in order: a run of `RxRuns` in good order. */
    ghost predicate Exact()
      reads this, bufs, pend, set r | r in pend :: r.dst
      requires pidxPend < bufs.Length && pidx < bufs.Length && Queued()
    {
      IntactTo(pidxPend, pidx, HandedOut())
    }

    /** The buffers drained since `pidx_pend` was `from` are at home. */
    ghost predicate DrainedHome(from: nat)
      reads `pidxPend, bufs
      requires from < bufs.Length && pidxPend < bufs.Length
    {
      RxRuns.DrainedAtHome(bufs[..], from, RingIdxDelta(pidxPend, from, bufs.Length))
    }

    /** What this means for readers. */
    lemma ExactMeans()
      requires Valid() && Exact()
      ensures sent == HandedOut() + Unread() + RxRuns.Joined(flying)
      ensures Flat(done) <= sent
    {
      hide Config, RecvQueue.RingOk, RecvQueue.Promised;
      PendingIsGather(mem, bufs[..], pidxPend, pidxPend, pidx, avail, pktDlen);
    }

    /** The bytes of a packet reach memory, from slot `at` on. */
    method WriteOut(p: seq<Byte>, at: nat)
      requires 0 < bufsz && RingOk(pidxPend) && at < bufs.Length && pidx < bufs.Length && pidxPend < bufs.Length
      modifies `mem
      ensures Laid(bufs[..], bufsz, |old(mem)|) && mem == Dma(old(mem), bufs[..], at, p, bufsz)
      ensures RingOk(pidxPend) && |Unread()| == |old(Unread())|
    {
      hide Gather, Dma, Laid;
      RingToShape(pidxPend, pidx);
      ghost var before := mem;
      mem := Dma(mem, bufs[..], at, p, bufsz);
      InvAnyMemory(bufsz, before, mem, View(pidxPend, pidx));
      RingToShape(pidxPend, pidx);
    }

    /** The device writes a packet into posted buffers. */
    method Land(p: seq<Byte>)
      requires Valid() && CountsRight(|p|, bufsz)
      requires NeedAll(RxRuns.Lens(flying), bufsz) + Need(|p|, bufsz) <= RingIdxDelta(posted, pidx, bufs.Length)
      modifies `mem, `flying, `sent
      ensures Valid() && flying == old(flying) + [p] && sent == old(sent) + p
      ensures old(Exact()) ==> Exact() && Unread() == old(Unread())
    {
      hide Gather, Need, NeedAll, CountsRight, Dma, Laid, Pow2, GetNextPowof2, RxRuns.Good, Flat, RecvQueue.Waiting,
        RecvQueue.HandedOut, RecvQueue.RingOk;
      RingShape(pidxPend);
      ghost var w, taken, before := View(pidxPend, pidx), HandedOut(), mem;
      NextAtIs(bufs[..], pidxPend, pidx, avail, pktDlen);
      PendingIsGather(before, bufs[..], pidxPend, pidxPend, pidx, avail, pktDlen);
      RxRuns.JoinedMore(flying, p, bufsz);
      PostedBound(pidxPend);
      WriteOut(p, RingIdxIncr(pidx, NeedAll(RxRuns.Lens(flying), bufsz), bufs.Length));
      if RxRuns.Good(bufsz, RxRuns.Rx(before, w, flying, sent, taken)) {
        RxRuns.LandedIsGood(bufsz, before, w, flying, sent, taken, p);
      }
      PendingIsGather(mem, bufs[..], pidxPend, pidxPend, pidx, avail, pktDlen);
      flying, sent := flying + [p], sent + p;
    }

    lemma PostedBound(base: nat)
      requires RingOk(base)
      ensures base < bufs.Length && pidx < bufs.Length && RingIdxDelta(posted, pidx, bufs.Length) <= avail < bufs.Length
    {
      RingToShape(base, pidx);
    }

    /** The end of `descq_process_completion_st_c2h`: hand the drained buffers back and tell the
        device. */
    method RecycleDrained(base: nat, updCmpl: bool, ghost taken: seq<Byte>)
      requires RingOk(base) && base < bufs.Length && pidxPend < bufs.Length && pidx < bufs.Length
      modifies bufs, `avail, `posted
      ensures RingOk(pidxPend) && Unread() == old(Unread())
      ensures HandedBack(bufsz, old(View(base, pidx)), View(pidxPend, pidx)) && SameAddrs(old(bufs[..]), bufs[..])
      ensures RingIdxDelta(posted, pidx, bufs.Length) >= old(RingIdxDelta(posted, pidx, bufs.Length))
      ensures posted == if pidxPend != base && updCmpl && !stopWait
                        then RingIdxDecr(pidxPend, 1, bufs.Length) else old(posted)
      ensures old(IntactTo(base, pidx, taken)) ==>
                (IntactTo(pidxPend, pidx, taken) <==>
                  RxRuns.DrainedAtHome(old(bufs[..]), base, RingIdxDelta(pidxPend, base, bufs.Length)))
    {
      hide Inv, Gather, Refilled, RingIdxDelta, RingIdxDecr, Laid, HandedBack, SameAddrs, RxRuns.Good,
        RxRuns.DrainedAtHome;
      var n := bufs.Length;
      RingToShape(base, pidx);
      ghost var b, w := bufs[..], View(base, pidx);
      InvShape(bufsz, mem, w);
      Advance(base, pidxPend, pidx, 0, n);
      PostedFits(pidxPend, pidx, n);
      if pidxPend != base {
        Refill(base, RingIdxDelta(pidxPend, base, n));
      } else {
        NothingRefilled(b, base, bufsz);
      }
      HandBack(bufsz, mem, b, bufs[..], base, pidxPend, pidx, old(avail), pktDlen);
      RxRuns.RefilledKeepsLaid(b, bufs[..], base, RingIdxDelta(pidxPend, base, n), bufsz, |mem|);
      InvShape(bufsz, mem, View(pidxPend, pidx));
      if pidxPend != base && updCmpl && !stopWait {
        posted := RingIdxDecr(pidxPend, 1, n);
      }
      if old(IntactTo(base, pidx, taken)) {
        RxRuns.RecycledIsGoodIff(bufsz, mem, w, View(pidxPend, pidx), flying, sent, taken);
      }
    }

    /** The part of `descq_process_completion_st_c2h` after its loop: serve the waiting requests,
        then recycle what they drained. */
    method Deliver(updCmpl: bool)
      requires RingOk(pidxPend) && pidxPend < bufs.Length && pidx < bufs.Length && Queued()
      modifies bufs, pend, set r | r in pend :: r.dst
      modifies `pidxPend, `avail, `pktDlen, `posted, `pend, `done
      ensures RingOk(pidxPend) && pidxPend < bufs.Length && pidx < bufs.Length && Queued() &&
              Account() == old(Account())
      ensures pend != [] ==> pidxPend == pidx
      ensures RingIdxDelta(posted, pidx, bufs.Length) >= old(RingIdxDelta(posted, pidx, bufs.Length))
      ensures posted == if pidxPend != old(pidxPend) && updCmpl && !stopWait
                        then RingIdxDecr(pidxPend, 1, bufs.Length) else old(posted)
      ensures Completed(old(pend), old(done), pend, done)
      ensures old(Exact()) ==>
                (Exact() <==> DrainedHome(old(pidxPend)))
      ensures old(Exact()) && old(|pend|) <= 1 ==>
              (Exact() <==> pidxPend == old(pidxPend) || AtHome(old(bufs[pidxPend])))
    {
      hide RecvQueue.RingOk, RecvQueue.UnreadTo, RecvQueue.Waiting, RecvQueue.Completed, ReadReq.Valid, Flat,
        RingIdxDelta, RingIdxDecr, RxRuns.DrainedAtHome, RxRuns.Good, SameAddrs, HandedBack, SeatsBut;
      var base := pidxPend;
      ghost var w0, handed0 := View(base, pidx), HandedOut();
      ZeroDelta(base, base, bufs.Length);
      QueuedApart();
      PacketsProcDflt(base);
      QueuedApart();
      RingShape(base);
      ghost var b1 := bufs[..];
      RecycleDrained(base, updCmpl, HandedOut());
      DrainedSame(b1, bufs[..], base, RingIdxDelta(pidxPend, base, bufs.Length));
      if old(Exact()) && old(|pend|) <= 1 {
        OneServed(bufsz, mem, w0, b1, pidxPend, flying, sent, handed0);
      }
    }

    /** A started queue: all buffers but one are the device's (`descq_flq_alloc_resource`,
        `qdma_descq_config_complete`); `homes` are the addresses of the buffers. */
    constructor (bufsz: nat, homes: seq<nat>, mem: seq<Byte>)
      requires bufsz > 0 && homes != [] && Laid(FreshBufs(homes, bufsz), bufsz, |mem|)
      ensures Valid() && Exact() && fresh(bufs) && sent == [] && flying == [] && done == [] && pend == []
      ensures bufs[..] == FreshBufs(homes, bufsz)
      ensures this.bufsz == bufsz && this.mem == mem && pidx == 0 && cidxCmpt == 0 && color && online && !stopWait
      ensures RingIdxDelta(posted, pidx, bufs.Length) == avail == |homes| - 1
    {
      hide GetNextPowof2, Pow2, Laid, RxRuns.Good;
      this.bufsz, this.mem := bufsz, mem;
      PageShift(bufsz);
      pgShift := Fls(GetNextPowof2(bufsz)) - 1;
      pgMask := Pow2(Fls(GetNextPowof2(bufsz)) - 1) - 1;
      var b := new Buf[|homes|](k requires 0 <= k < |homes| => Buf(homes[k], homes[k], bufsz, false));
      bufs := b;
      pidx, pidxPend, avail, pktDlen, posted := 0, 0, |homes| - 1, 0, |homes| - 1;
      cidxCmpt, color, online, stopWait, pend, flying := 0, true, true, false, [], [];
      done, sent := [], [];
      new;
      assert bufs[..] == FreshBufs(homes, bufsz);
      RxRuns.StartsGood(bufsz, mem, homes);
    }

    /** The receiving half of `descq_process_completion_st_c2h`, up to the update of `pidx`. */
    method ReceiveAll(ring: seq<Slot<nat>>, count: nat, ghost unread: seq<nat>) returns (procCnt: nat)
      requires Sound() && Consistent(ring, cidxCmpt, color, unread) && count <= |unread| &&
               unread <= RxRuns.Lens(flying)
      modifies bufs, `avail, `pktDlen, `cidxCmpt, `color, `pidx, `flying
      ensures Sound() && procCnt == count && Consistent(ring, cidxCmpt, color, unread[procCnt..])
      ensures flying == old(flying)[procCnt..] && unread[procCnt..] <= RxRuns.Lens(flying)
      ensures old(pidx) < bufs.Length && NeedAll(unread[..procCnt], bufsz) < bufs.Length
      ensures pidx == RingIdxIncr(old(pidx), NeedAll(unread[..procCnt], bufsz), bufs.Length)
      ensures Account() == old(Account()) + StreamBytes(mem, old(bufs[..]), old(pidx), unread[..procCnt], bufsz)
      ensures old(Exact()) ==> Exact() && Account() == old(Account()) + RxRuns.Joined(old(flying)[..procCnt])
      ensures SameAddrs(old(bufs[..]), bufs[..])
    {
      hide RecvQueue.RingTo, RecvQueue.UnreadTo, RecvQueue.Waiting, RecvQueue.IntactTo, Consistent, CountsRight,
        NeedAll, StreamBytes, Flat, RingIdxDelta, RingIdxIncr, RingIdxDecr, Pow2, GetNextPowof2, ReadReq.Valid,
        SameAddrs, RxRuns.Lens, RxRuns.Joined;
      RingToShape(pidxPend, pidx);
      QueuedApart();
      ghost var taken, flying0 := HandedOut(), flying;
      ghost var exact := Exact();
      if exact { ExactSum(); }
      var cur;
      cur, procCnt := TakeCompletions(ring, count, unread, taken);
      pidx := cur;
      RingToShape(pidxPend, pidx);
      assert taken == HandedOut();
      RxRuns.JoinedSplit(flying0, count);
      StreamIsJoined(mem, old(bufs[..]), old(pidx), flying0, unread, count, bufsz);
      if exact {
        ExactSum();
        CancelSuffix(Account(), old(Account()) + RxRuns.Joined(flying0[..count]), RxRuns.Joined(flying));
      }
    }

    lemma ExactSum()
      requires pidxPend < bufs.Length && pidx < bufs.Length && Queued() && Exact()
      ensures sent == Account() + RxRuns.Joined(flying)
    {
      InvShape(bufsz, mem, View(pidxPend, pidx));
      PendingIsGather(mem, bufs[..], pidxPend, pidxPend, pidx, avail, pktDlen);
    }

    /** `descq_process_completion_st_c2h` on a queue without an upper-layer handler: each packet
        is taken once and in order, none is refused, and waiting requests are served first come,
        first served. The device has reported packets that it wrote, at least as many as its
        status index says. If all bytes were those sent so far, so are the ones taken now; and
        they will be if and only if no buffer is handed back that is away from home. */
    method ProcessCompletion(ring: seq<Slot<nat>>, csPidx: nat, budget: nat, updCmpl: bool, ghost unread: seq<nat>)
        returns (rv: int, procCnt: nat)
      requires Valid() && Consistent(ring, cidxCmpt, color, unread) && unread <= RxRuns.Lens(flying)
      requires csPidx < |ring| && cidxCmpt < |ring| && RingIdxDelta(csPidx, cidxCmpt, |ring|) <= |unread|
      modifies bufs, pend, set r | r in pend :: r.dst
      modifies `avail, `pktDlen, `cidxCmpt, `color, `pidx, `flying, `pidxPend, `posted, `pend, `done
      ensures Valid()
      ensures procCnt == Budgeted(budget, old(RingIdxDelta(csPidx, cidxCmpt, |ring|))) <= |unread|
      ensures rv == if csPidx == old(cidxCmpt) then -ENODATA else 0
      ensures Consistent(ring, cidxCmpt, color, unread[procCnt..])
      ensures flying == old(flying)[procCnt..] && unread[procCnt..] <= RxRuns.Lens(flying)
      ensures old(pidx) < bufs.Length && NeedAll(unread[..procCnt], bufsz) < bufs.Length
      ensures Account() == old(Account()) + StreamBytes(mem, old(bufs[..]), old(pidx), unread[..procCnt], bufsz)
      ensures posted == if pidxPend != old(pidxPend) && updCmpl && !stopWait
                        then RingIdxDecr(pidxPend, 1, bufs.Length) else old(posted)
      ensures pidx == RingIdxIncr(old(pidx), NeedAll(unread[..procCnt], bufsz), bufs.Length)
      ensures Completed(old(pend), old(done), pend, done)
      ensures old(Exact()) ==>
                && Account() == old(Account()) + RxRuns.Joined(old(flying)[..procCnt])
                && (Exact() <==> DrainedHome(old(pidxPend)))
      ensures old(Exact()) && old(|pend|) <= 1 ==>
              (Exact() <==> pidxPend == old(pidxPend) || AtHome(old(bufs[pidxPend])))
    {
      hide RecvQueue.RingTo, RecvQueue.Unread, RecvQueue.Queued, RecvQueue.Account, RecvQueue.Exact, Consistent,
        CountsRight, NeedAll, StreamBytes, RingIdxDelta, RingIdxDecr, Pow2, GetNextPowof2, RxRuns.Lens, RxRuns.Joined,
        RxRuns.DrainedAtHome, RecvQueue.Completed, RingIdxIncr, RecvQueue.HandedOut, RxRuns.Good, RecvQueue.Waiting;
      RingToShape(pidxPend, pidx);
      ZeroDelta(csPidx, cidxCmpt, |ring|);
      ZeroDelta(pidxPend, pidxPend, bufs.Length);
      var waiting: nat := RingIdxDelta(csPidx, cidxCmpt, |ring|);
      assert unread[0..] == unread && flying[0..] == flying && flying[..0] == [] && unread[..0] == [];
      StreamOfNone(mem, bufs[..], pidx, bufsz);
      NoneYet(pend, done, bufs[..], pidxPend);
      if waiting == 0 {
        return -ENODATA, 0;
      }
      var count := if budget == 0 || budget > waiting then waiting else budget;
      ghost var b0 := bufs[..];
      procCnt := ReceiveAll(ring, count, unread);
      if procCnt > 0 {
        SameAt(b0, bufs[..], pidxPend);
        Deliver(updCmpl);
      }
      rv := 0;
    }

    lemma NoneYet(pend0: seq<ReadReq>, done0: seq<seq<Byte>>, b: seq<Buf>, at: nat)
      requires at < |b|
      ensures Completed(pend0, done0, pend0, done0) && RxRuns.DrainedAtHome(b, at, 0) && RxRuns.Joined([]) == []
    {
    }

    /** A first read into a request, refilling and posting at once. */
    method ReadNow(req: ReadReq, ghost taken: seq<Byte>) returns (n: nat)
      requires RingOk(pidxPend) && pidxPend < bufs.Length && pidx < bufs.Length && req.dst as object != bufs as object
      requires req.dst.Length == Total(req.sgl) && req.sgIdx == 0 && req.sgOffset == 0
      modifies bufs, req, req.dst, `pidxPend, `avail, `pktDlen, `posted
      ensures RingOk(pidxPend) && pidxPend < bufs.Length && pidx < bufs.Length
      ensures n == Min(Total(req.sgl), old(pktDlen)) && pktDlen == old(pktDlen) - n
      ensures n <= req.dst.Length && n <= |old(Unread())|
      ensures req.dst[..n] == old(Unread())[..n] && Unread() == old(Unread())[n..]
      ensures Placed(req.sgl, req.sgIdx, req.sgOffset, n) && req.left == Sub32(old(req.left), n)
      ensures old(req.left) == req.dst.Length ==> req.Valid() && req.left == req.dst.Length - n
      ensures n < Total(req.sgl) || old(pidx == pidxPend) ==> pidxPend == pidx
      ensures posted == if pidxPend != old(pidxPend) then RingIdxDecr(pidxPend, 1, bufs.Length) else old(posted)
      ensures RingIdxDelta(posted, pidx, bufs.Length) >= old(RingIdxDelta(posted, pidx, bufs.Length))
      ensures old(IntactTo(pidxPend, pidx, taken)) ==>
                (IntactTo(pidxPend, pidx, taken + old(Unread())[..n]) <==>
                  pidxPend == old(pidxPend) || AtHome(old(bufs[pidxPend])))
    {
      hide RecvQueue.RingOk, RecvQueue.UnreadTo, RecvQueue.IntactTo, Placed, Overlaid, RingIdxDelta,
        RingIdxIncr;
      AtStart(req.sgl);
      RingShape(pidxPend);
      ghost var was, unread := req.dst[..], Unread();
      var rv := Read(req, true, true, pidxPend, 0, taken);
      if rv < 0 {
        assert false;
      }
      n := rv;
      Handed(was, req.dst[..], 0, unread, n);
      RingShape(pidxPend);
    }

    /** What becomes of a request that is last in the queue and has just read `n` bytes: it leaves
        the queue if it is finished. `before` is what the first of the others has. */
    method Conclude(req: ReadReq, waiting: seq<ReadReq>, ghost before: seq<Byte>, ghost unread: seq<Byte>, ghost n: nat)
      requires pend == waiting + [req] && Waiting(waiting) && Ahead(req, waiting)
      requires before == if waiting == [] then [] else waiting[0].Got()
      requires n <= req.dst.Length && n <= |unread| && req.dst[..n] == unread[..n]
      requires req.left == req.dst.Length - n && (waiting != [] ==> unread == [])
      modifies `pend, `done
      ensures Queued() && HandedOut() == (Flat(old(done)) + before) + unread[..n]
      ensures if req.left == 0 then pend == waiting && done == old(done) + [req.dst[..]]
              else pend == old(pend) && done == old(done)
    {
      hide ReadReq.Valid, Flat, RecvQueue.Unserved;
      Balanced(Flat(done), before, unread, req.dst[..], n);
      if req.left == 0 {
        FlatMore(done, req.dst[..]);
        done := done + [req.dst[..]];
        pend := waiting;
      } else {
        WaitingMore(waiting, req);
      }
    }

    /** The locked part of `qdma_request_submit_st_c2h` on a running queue. */
    method QueueAndRead(req: ReadReq)
      requires Valid() && req !in pend && req.dst as object != bufs as object
      requires forall r :: r in pend ==> r.dst != req.dst
      requires req.dst.Length == Total(req.sgl) && req.sgIdx == 0 && req.sgOffset == 0 && req.left == req.dst.Length
      modifies bufs, req, req.dst, `pidxPend, `avail, `pktDlen, `posted, `pend, `done
      ensures Valid() && Account() == old(Account())
      ensures posted == if pidxPend != old(pidxPend) then RingIdxDecr(pidxPend, 1, bufs.Length) else old(posted)
      ensures if Total(req.sgl) <= old(pktDlen)
              then req.left == 0 && pend == old(pend) && done == old(done) + [req.dst[..]]
              else req.left > 0 && pend == old(pend) + [req] && done == old(done)
      ensures old(Exact()) ==> (Exact() <==> pidxPend == old(pidxPend) || AtHome(old(bufs[pidxPend])))
    {
      hide RecvQueue.RingOk, RecvQueue.Unread, RecvQueue.IntactTo, RecvQueue.Waiting, RecvQueue.Config, ReadReq.Valid,
        Flat, Sub32, Prefix, Placed, CountsRight, NeedAll, RxRuns.Lens, RxRuns.Joined, RingIdxDelta, RxRuns.Good;
      QueuedApart();
      ghost var unread, before, handed := Unread(), if pend == [] then [] else pend[0].Got(), HandedOut();
      if pend != [] { NothingUnread(pidxPend); }
      var waiting := pend;
      pend := waiting + [req];
      var n := ReadNow(req, handed);
      Conclude(req, waiting, before, unread, n);
      hide RecvQueue.Queued, RecvQueue.HandedOut;
      assert Account() == handed + unread by { assert handed + unread == (handed + unread[..n]) + unread[n..]; }
    }

    /** `qdma_request_submit_st_c2h` without waiting: the request goes behind the waiting ones and
        takes what is unread, so it can be finished at once only if nobody waits for bytes. */
    method SubmitRead(req: ReadReq) returns (rv: int)
      requires Valid() && req !in pend && req.dst as object != bufs as object
      requires forall r :: r in pend ==> r.dst != req.dst
      requires req.dst.Length == Total(req.sgl)
      modifies bufs, req, req.dst, `pidxPend, `avail, `pktDlen, `posted, `pend, `done
      ensures Valid() && Account() == old(Account())
      ensures posted == if pidxPend != old(pidxPend) then RingIdxDecr(pidxPend, 1, bufs.Length) else old(posted)
      ensures stopWait || !online ==>
                && rv == (if stopWait then 0 else -EINVAL)
                && pend == old(pend) && done == old(done) && pktDlen == old(pktDlen)
      ensures !stopWait && online ==>
                if Total(req.sgl) <= old(pktDlen)
                then rv == Total(req.sgl) && pend == old(pend) && done == old(done) + [req.dst[..]]
                else rv == 0 && pend == old(pend) + [req] && done == old(done)
      ensures old(Exact()) ==> (Exact() <==> pidxPend == old(pidxPend) || AtHome(old(bufs[pidxPend])))
    {
      hide RecvQueue.RingOk, RecvQueue.Unread, RecvQueue.IntactTo, Flat, Pow2, GetNextPowof2, Prefix, Placed;
      req.sgIdx, req.sgOffset, req.left := 0, 0, req.dst.Length;
      if stopWait {
        return 0;
      }
      if !online {
        return -EINVAL;
      }
      QueueAndRead(req);
      rv := if req.left == 0 then req.dst.Length else 0;
    }

    /** The read of `qdma_queue_packet_read`, with its control block zeroed; it passes the waiting
        requests by. */
    method TakeUnread(req: ReadReq) returns (n: nat)
      requires Valid() && req !in pend && req.dst as object != bufs as object
      requires forall r :: r in pend ==> r.dst != req.dst
      requires req.dst.Length == Total(req.sgl)
      modifies bufs, req, req.dst, `pidxPend, `avail, `pktDlen, `posted
      ensures Config() && RingOk(pidxPend) && pidx < bufs.Length && pidxPend < bufs.Length && Queued() && Promised()
      ensures posted == if pidxPend != old(pidxPend) then RingIdxDecr(pidxPend, 1, bufs.Length) else old(posted)
      ensures HandedOut() == old(HandedOut()) && (pend != [] ==> old(Unread()) == [] && pidxPend == pidx)
      ensures n == Min(Total(req.sgl), old(pktDlen)) && pktDlen == old(pktDlen) - n
      ensures n <= req.dst.Length && n <= |old(Unread())| && req.left == Sub32(0, n)
      ensures req.dst[..n] == old(Unread())[..n] && Unread() == old(Unread())[n..]
      ensures old(Exact()) ==>
                (IntactTo(pidxPend, pidx, HandedOut() + old(Unread())[..n]) <==>
                  pidxPend == old(pidxPend) || AtHome(old(bufs[pidxPend])))
    {
      hide RecvQueue.RingOk, RecvQueue.Unread, RecvQueue.IntactTo, RecvQueue.Waiting, RecvQueue.Queued, ReadReq.Valid,
        Pow2, GetNextPowof2, Flat, Sub32, Total, Placed, CountsRight, NeedAll, RxRuns.Lens, RxRuns.Joined,
        RingIdxDelta, RxRuns.Good;
      QueuedApart();
      if pend != [] { NothingUnread(pidxPend); }
      req.sgIdx, req.sgOffset, req.left := 0, 0, 0;
      n := ReadNow(req, HandedOut());
    }

    /** `qdma_queue_packet_read`: the control block is zeroed, `left` included, so that what is
        returned is the bytes asked for plus the bytes read, not the bytes read. */
    method PacketRead(req: ReadReq) returns (rv: nat)
      requires Valid() && req !in pend && req.dst as object != bufs as object
      requires forall r :: r in pend ==> r.dst != req.dst
      requires req.dst.Length == Total(req.sgl) < 0x8000_0000
      modifies bufs, req, req.dst, `pidxPend, `avail, `pktDlen, `posted, `done
      ensures Valid() && Account() == old(Account())
      ensures posted == if pidxPend != old(pidxPend) then RingIdxDecr(pidxPend, 1, bufs.Length) else old(posted)
      ensures var n := Min(Total(req.sgl), old(pktDlen));
              && pktDlen == old(pktDlen) - n && n <= req.dst.Length
              && done == old(done) + [req.dst[..n]]
              && rv == Total(req.sgl) + n && (rv == n <==> Total(req.sgl) == 0)
      ensures old(Exact()) ==> (Exact() <==> pidxPend == old(pidxPend) || AtHome(old(bufs[pidxPend])))
    {
      hide RecvQueue.RingOk, RecvQueue.Unread, RecvQueue.IntactTo, RecvQueue.Queued, RecvQueue.Promised,
        ReadReq.Valid, Pow2, GetNextPowof2, Flat, Sub32, Total, RxRuns.Joined, RxRuns.Good, RecvQueue.Waiting;
      QueuedApart();
      ghost var unread, before, handed := Unread(), if pend == [] then [] else pend[0].Got(), HandedOut();
      var n := TakeUnread(req);
      rv := Sub32(req.dst.Length, req.left);
      Wrapped(req.dst.Length, n);
      Balanced(Flat(done), before, unread, req.dst[..n], n);
      FlatMore(done, req.dst[..n]);
      done := done + [req.dst[..n]];
      assert HandedOut() == handed + unread[..n];
      assert handed + unread == (handed + unread[..n]) + unread[n..];
    }
  }

  /** With the index just behind the unread buffers posted, the device has all the others. */
  lemma PostedFits(head: nat, upto: nat, n: nat)
    requires head < n && upto < n
    ensures 0 <= RingIdxDecr(head, 1, n) < n && RingIdxDelta(head, head, n) == 0
    ensures RingIdxDelta(RingIdxDecr(head, 1, n), upto, n) == n - 1 - RingIdxDelta(upto, head, n)
  {
  }

  /** The account of a read of `n` bytes into a destination filled up to `pos`. */
  lemma Handed(was: seq<Byte>, now: seq<Byte>, pos: nat, unread: seq<Byte>, n: nat)
    requires n <= |unread| && Overlaid(was, now, pos, unread[..n])
    ensures pos + n <= |was| == |now|
    ensures now[..pos + n] == was[..pos] + unread[..n]
  {
  }

  lemma FlatMore(chunks: seq<seq<Byte>>, more: seq<Byte>)
    ensures Flat(chunks + [more]) == Flat(chunks) + more
  {
    assert (chunks + [more])[..|chunks|] == chunks;
  }

  /** What readers have when a new request takes `n` of the unread bytes. */
  lemma Balanced(flat: seq<Byte>, before: seq<Byte>, unread: seq<Byte>, dst: seq<Byte>, n: nat)
    requires n <= |dst| && n <= |unread| && dst[..n] == unread[..n]
    ensures before == [] ==> flat + dst[..n] == (flat + before) + unread[..n]
    ensures before == [] && n == |dst| ==> (flat + dst) + before == (flat + before) + unread[..n]
    ensures unread == [] ==> flat + before == (flat + before) + unread[..n]
    ensures unread == [] && n == |dst| ==> (flat + dst) + before == (flat + before) + unread[..n]
  {
  }

  /** `count - left` after `n` bytes were taken from a `left` of zero. */
  lemma Wrapped(count: nat, n: nat)
    requires n <= count < 0x8000_0000
    ensures Sub32(count, Sub32(0, n)) == count + n
  {
    if n > 0 {
      ModUnique(0 - n, -1, U32 - n, U32);
      assert Sub32(0, n) == U32 - n;
      ModUnique(count - (U32 - n), -1, count + n, U32);
    }
  }

  lemma AtStart(sgl: seq<Seg>)
    ensures Placed(sgl, 0, 0, 0)
  {
  }

  /** The page shift of the queue's configuration. */
  lemma PageShift(bufsz: nat)
    requires bufsz > 0
    ensures GetNextPowof2(bufsz) > 0 && Fls(GetNextPowof2(bufsz)) > 0
    ensures Pow2(Fls(GetNextPowof2(bufsz)) - 1) == GetNextPowof2(bufsz)
  {
    hide GetNextPowof2, Fls, Pow2;
    NextPowof2IsLeast(bufsz);
    var p := GetNextPowof2(bufsz);
    FlsBounds(p);
    var k: nat, f := (var k: nat :| p == Pow2(k); k), Fls(p);
    if k < f - 1 { Pow2Monotone(k, f - 1); }
    if f < k { Pow2Monotone(f, k); }
  }

  lemma IncrTwice(at: nat, a: nat, b: nat, n: nat)
    requires at < n && a + b < n
    ensures RingIdxIncr(RingIdxIncr(at, a, n), b, n) == RingIdxIncr(at, a + b, n)
  {
  }

  lemma ZeroDelta(a: nat, b: nat, n: nat)
    requires a < n && b < n
    ensures RingIdxDelta(a, b, n) >= 0 && (RingIdxDelta(a, b, n) == 0 <==> a == b)
  {
  }

  lemma NothingRefilled(bufs: seq<Buf>, at: nat, bufsz: nat)
    requires at < |bufs|
    ensures Refilled(bufs, bufs, at, 0, bufsz)
  {
  }

  lemma NothingCopied(mem: seq<Byte>, bufs: seq<Buf>, start: nat, all: seq<Byte>, sgl: seq<Seg>, j: nat, off: nat,
                      pos: nat, dst: seq<Byte>)
    requires start < |bufs| && Placed(sgl, j, off, pos) && |dst| == Total(sgl)
    ensures |Gather(mem, bufs, start, 0)| == 0 && j <= |sgl| && Overlaid(dst, dst, pos, all[..0])
  {
    PlacedWithin(sgl, j, off, pos);
  }

  /** `foff` bytes of buffer `i`, written behind all the bytes of the buffers before it. */
  lemma CopiedMore(mem: seq<Byte>, bufs: seq<Buf>, start: nat, cnt: nat, i: nat, foff: nat,
                   was: seq<Byte>, mid: seq<Byte>, now: seq<Byte>, pos: nat)
    requires start < |bufs| && i < cnt <= |bufs| && foff <= bufs[RingIdxIncr(start, i, |bufs|)].len
    requires var g := |Gather(mem, bufs, start, i)|;
             && g <= |Gather(mem, bufs, start, cnt)|
             && Overlaid(was, mid, pos, Gather(mem, bufs, start, cnt)[..g])
             && Overlaid(mid, now, pos + g, Bytes(mem, bufs[RingIdxIncr(start, i, |bufs|)].addr, foff))
    ensures var g := |Gather(mem, bufs, start, i)|;
            && g + foff <= |Gather(mem, bufs, start, cnt)|
            && Overlaid(was, now, pos, Gather(mem, bufs, start, cnt)[..g + foff])
            && (foff == bufs[RingIdxIncr(start, i, |bufs|)].len ==> |Gather(mem, bufs, start, i + 1)| == g + foff)
  {
    hide Gather, Overlaid;
    var all, g, b := Gather(mem, bufs, start, cnt), |Gather(mem, bufs, start, i)|, bufs[RingIdxIncr(start, i, |bufs|)];
    GatherAt(mem, bufs, start, cnt, i);
    var t := Bytes(mem, b.addr, foff);
    assert t == Contents(mem, b)[..foff];
    assert all[g..g + b.len][..foff] == all[g..g + foff];
    assert all[..g] + t == all[..g + foff];
    OverlaidFits(mid, now, pos + g, t);
    OverlaidFits(was, mid, pos, all[..g]);
    OverlaidTwice(was, mid, now, pos, all[..g], t);
  }

  lemma OverlaidFits(was: seq<Byte>, now: seq<Byte>, pos: nat, s: seq<Byte>)
    requires Overlaid(was, now, pos, s)
    ensures pos + |s| <= |was| && |now| == |was|
  {
  }

  lemma NextAtIs(bufs: seq<Buf>, head: nat, upto: nat, avail: nat, pktDlen: nat)
    requires head < |bufs| && upto < |bufs|
    ensures RxRuns.NextAt(WinOf(bufs, head, head, upto, avail, pktDlen)) == upto
    ensures WinOf(bufs, head, head, upto, avail, pktDlen).lag == 0
  {
  }

  lemma SameAddrsSelf(b: seq<Buf>)
    ensures SameAddrs(b, b)
  {
  }

  lemma SameAddrsJoin(b: seq<Buf>, c: seq<Buf>, d: seq<Buf>)
    requires SameAddrs(b, c) && SameAddrs(c, d)
    ensures SameAddrs(b, d)
  {
  }

  lemma SameAt(b: seq<Buf>, c: seq<Buf>, at: nat)
    requires SameAddrs(b, c) && at < |b|
    ensures |c| == |b| && (AtHome(b[at]) <==> AtHome(c[at]))
  {
  }

  /** Addresses are the same at all slots but one. */
  ghost predicate SeatsBut(b: seq<Buf>, c: seq<Buf>, next: nat) {
    |c| == |b| && forall s :: 0 <= s < |b| && s != next ==> c[s].addr == b[s].addr && c[s].home == b[s].home
  }

  lemma DrainedSeats(bufsz: nat, mem: seq<Byte>, w: Win, i: nat, foff: nat, copied: nat, u: Win, v: Win)
    requires Drained(mem, w, i, foff, copied, u) && (v == u || HandedBack(bufsz, u, v))
    ensures SeatsBut(w.bufs, v.bufs, RingIdxIncr(w.base, w.lag + i, |w.bufs|))
  {
    hide Taken;
    var n := |w.bufs|;
    forall s | 0 <= s < n && s != RingIdxIncr(w.base, w.lag + i, n)
      ensures |v.bufs| == n && v.bufs[s].addr == w.bufs[s].addr && v.bufs[s].home == w.bufs[s].home
    {
      assert s == RingIdxIncr(w.base, if s >= w.base then s - w.base else s + n - w.base, n);
    }
    assert w.base == RingIdxIncr(w.base, 0, n);
  }

  lemma StepsAway(idx: nat, i: nat, n: nat)
    requires idx < n && i < n
    ensures RingIdxIncr(idx, i, n) == idx <==> i == 0
  {
  }

  lemma DrainedSame(b: seq<Buf>, c: seq<Buf>, base: nat, lag: nat)
    requires SameAddrs(b, c) && base < |b| && lag <= |b|
    ensures RxRuns.DrainedAtHome(b, base, lag) <==> RxRuns.DrainedAtHome(c, base, lag)
  {
  }

  /** With at most one read, the buffers it emptied are at home but for the first. */
  lemma OneServed(bufsz: nat, mem: seq<Byte>, w: Win, b: seq<Buf>, next: nat,
                  flying: seq<seq<Byte>>, sent: seq<Byte>, taken: seq<Byte>)
    requires RxRuns.Good(bufsz, RxRuns.Rx(mem, w, flying, sent, taken)) && w.lag == 0
    requires SeatsBut(w.bufs, b, next) && next < |b| && w.base < |b|
    ensures RxRuns.DrainedAtHome(b, w.base, RingIdxDelta(next, w.base, |b|)) <==>
            next == w.base || AtHome(w.bufs[w.base])
  {
    hide Inv, Laid;
    var n, lag := |b|, RingIdxDelta(next, w.base, |b|);
    assert RingIdxIncr(w.base, 0, n) == w.base && RingIdxIncr(w.base, lag, n) == next;
    SlotsDiffer(w.base, lag, n);
  }

  /** The lengths reported are those of the packets that come next. */
  lemma FlyingNeeds(flying: seq<seq<Byte>>, unread: seq<nat>, m: nat, bufsz: nat)
    requires bufsz > 0 && m <= |unread| && unread <= RxRuns.Lens(flying)
    ensures NeedAll(unread[..m], bufsz) <= NeedAll(RxRuns.Lens(flying), bufsz)
  {
    NeedAllTake(RxRuns.Lens(flying), bufsz, m);
    assert RxRuns.Lens(flying)[..m] == unread[..m];
  }

  lemma FirstFlies(flying: seq<seq<Byte>>, unread: seq<nat>, bufsz: nat)
    requires bufsz > 0 && unread != [] && unread <= RxRuns.Lens(flying)
    ensures flying != [] && |flying[0]| == unread[0] && unread[1..] <= RxRuns.Lens(flying[1..])
    ensures NeedAll(RxRuns.Lens(flying), bufsz) == Need(|flying[0]|, bufsz) + NeedAll(RxRuns.Lens(flying[1..]), bufsz)
  {
    assert RxRuns.Lens(flying)[1..] == RxRuns.Lens(flying[1..]);
  }

  lemma {:induction false} StreamLength(mem: seq<Byte>, bufs: seq<Buf>, at: nat, ps: seq<seq<Byte>>, bufsz: nat)
    requires at < |bufs| && bufsz > 0 && NeedAll(RxRuns.Lens(ps), bufsz) < |bufs|
    ensures |StreamBytes(mem, bufs, at, RxRuns.Lens(ps), bufsz)| == |RxRuns.Joined(ps)|
    decreases |ps|
  {
    if ps != [] {
      assert RxRuns.Lens(ps)[1..] == RxRuns.Lens(ps[1..]);
      StreamLength(mem, bufs, RingIdxIncr(at, Need(|ps[0]|, bufsz), |bufs|), ps[1..], bufsz);
    }
  }

  lemma StreamIsJoined(mem: seq<Byte>, bufs: seq<Buf>, at: nat, flying: seq<seq<Byte>>, unread: seq<nat>, m: nat,
                       bufsz: nat)
    requires at < |bufs| && bufsz > 0 && m <= |unread| && unread <= RxRuns.Lens(flying) &&
             NeedAll(unread[..m], bufsz) < |bufs|
    ensures m <= |flying| && |StreamBytes(mem, bufs, at, unread[..m], bufsz)| == |RxRuns.Joined(flying[..m])|
  {
    assert RxRuns.Lens(flying[..m]) == unread[..m];
    StreamLength(mem, bufs, at, flying[..m], bufsz);
  }

  /** A destination filled up to `pos`, and the bytes waiting for it. */
  datatype Sink = Sink(dst: seq<Byte>, pos: nat, unread: seq<Byte>)

  /** What one read does: see the contract of `Read`. */
  ghost predicate ReadOnce(s: Sink, t: Sink) {
    && s.pos <= |s.dst|
    && var n := Min(|s.dst| - s.pos, |s.unread|);
       Overlaid(s.dst, t.dst, s.pos, s.unread[..n]) && t.pos == s.pos + n && t.unread == s.unread[n..]
  }

  /** One read, and one more after each arrival. */
  ghost predicate ReadInParts(s: Sink, arrivals: seq<seq<Byte>>, t: Sink)
    decreases |arrivals|
  {
    if arrivals == [] then ReadOnce(s, t)
    else exists u ::
      ReadOnce(s, u) && ReadInParts(u.(unread := u.unread + arrivals[0]), arrivals[1..], t)
  }

  /** A resumed read: what comes in later, if anything, is read as if it had been there at once. */
  lemma ReadResumes(s: Sink, u: Sink, more: seq<Byte>, t: Sink)
    requires ReadOnce(s, u) && ReadOnce(u.(unread := u.unread + more), t)
    ensures ReadOnce(s.(unread := s.unread + more), t)
  {
    hide Overlaid;
    var m, n := u.pos - s.pos, t.pos - u.pos;
    var first, second := s.unread[..m], (u.unread + more)[..n];
    OverlaidFits(s.dst, u.dst, s.pos, first);
    OverlaidFits(u.dst, t.dst, u.pos, second);
    OverlaidTwice(s.dst, u.dst, t.dst, s.pos, first, second);
    assert (s.unread + more)[..m + n] == first + second;
    assert (s.unread + more)[m + n..] == (u.unread + more)[n..];
  }

  /** Reading in any number of calls, with any arrivals in between, fills the destination and
      leaves the unread bytes as one call would after all arrivals. */
  lemma {:induction false} SplitReads(s: Sink, arrivals: seq<seq<Byte>>, t: Sink)
    requires ReadInParts(s, arrivals, t)
    ensures ReadOnce(s.(unread := s.unread + RxRuns.Joined(arrivals)), t)
    decreases |arrivals|
  {
    hide ReadOnce;
    if arrivals == [] {
      assert s.unread + RxRuns.Joined([]) == s.unread;
    } else {
      var a, rest := arrivals[0], RxRuns.Joined(arrivals[1..]);
      var u :| ReadOnce(s, u) && ReadInParts(u.(unread := u.unread + a), arrivals[1..], t);
      SplitReads(u.(unread := u.unread + a), arrivals[1..], t);
      assert u.unread + a + rest == u.unread + (a + rest);
      ReadResumes(s, u, a + rest, t);
    }
  }

  lemma CancelSuffix(a: seq<Byte>, b: seq<Byte>, c: seq<Byte>)
    requires a + c == b + c
    ensures a == b
  {
    assert |a| == |b|;
    assert (a + c)[..|a|] == a && (b + c)[..|b|] == b;
  }

  /** Lengths do not depend on what memory holds. */
  lemma {:induction false} GatherLength(mem: seq<Byte>, mem': seq<Byte>, bufs: seq<Buf>, start: nat, cnt: nat)
    requires start < |bufs|
    ensures |Gather(mem, bufs, start, cnt)| == |Gather(mem', bufs, start, cnt)|
    decreases cnt
  {
    if cnt > 0 { GatherLength(mem, mem', bufs, RingIdxIncr(start, 1, |bufs|), cnt - 1); }
  }

  lemma InvAnyMemory(bufsz: nat, mem: seq<Byte>, mem': seq<Byte>, w: Win)
    requires Inv(bufsz, mem, w)
    ensures Inv(bufsz, mem', w)
  {
    GatherLength(mem, mem', w.bufs, RingIdxIncr(w.base, w.lag, |w.bufs|), w.cnt);
  }
}
