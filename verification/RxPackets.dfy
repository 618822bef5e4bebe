/** Packets on the receive ring: how many buffers each takes, and which bytes it is read as. */
module RxPackets {
  import opened Bits
  import opened Ring
  import opened BufferCount
  import opened RxModel
  import opened RxSteps

  /** Buffers taken by a packet; an empty one still takes one. */
  function Need(len: nat, bufsz: nat): nat
    requires bufsz > 0
    decreases len
  {
    if len <= bufsz then 1 else 1 + Need(len - bufsz, bufsz)
  }

  /** It is the ceiling that the driver computes, with the same last length. */
  lemma {:induction false} NeedSplits(len: nat, bufsz: nat)
    requires 0 < bufsz && 0 < len
    ensures Splits(len, bufsz, Need(len, bufsz), len - (Need(len, bufsz) - 1) * bufsz)
    decreases len
  {
    if len > bufsz {
      NeedSplits(len - bufsz, bufsz);
      var m := Need(len - bufsz, bufsz);
      assert m * bufsz == (m - 1) * bufsz + bufsz;
    }
  }

  /** Bytes in the last buffer of a packet. */
  function LastLen(len: nat, bufsz: nat): nat
    requires bufsz > 0
    decreases len
  {
    if len <= bufsz then len else LastLen(len - bufsz, bufsz)
  }

  lemma {:induction false} LastLenSplits(len: nat, bufsz: nat)
    requires bufsz > 0
    ensures len == (Need(len, bufsz) - 1) * bufsz + LastLen(len, bufsz) && LastLen(len, bufsz) <= bufsz
    decreases len
  {
    if len > bufsz {
      LastLenSplits(len - bufsz, bufsz);
      var m := Need(len - bufsz, bufsz);
      assert m * bufsz == (m - 1) * bufsz + bufsz;
    }
  }

  /** `get_fl_nr` gives `Need` and `LastLen` wherever its count is right. */
  lemma CountIsNeed(len: nat, bufsz: nat, fl: int, last: int)
    requires 0 < bufsz && 0 < len && Splits(len, bufsz, fl, last)
    ensures fl == Need(len, bufsz) && last == LastLen(len, bufsz)
  {
    NeedSplits(len, bufsz);
    SplitUnique(len, bufsz, fl, last, Need(len, bufsz), len - (Need(len, bufsz) - 1) * bufsz);
    LastLenSplits(len, bufsz);
  }

  lemma RightCount(len: nat, bufsz: nat)
    requires bufsz > 0 && CountsRight(len, bufsz)
    ensures Count(len, bufsz) == Need(len, bufsz) && LastOf(len, bufsz) == LastLen(len, bufsz)
  {
    hide Count, LastOf, CountsRight, Splits;
    if len == 0 {
      NoneLast(bufsz);
    } else {
      CountRightIff(len, bufsz);
      CountIsNeed(len, bufsz, Count(len, bufsz), LastOf(len, bufsz));
    }
  }

  lemma NoneLast(bufsz: nat)
    requires bufsz > 0
    ensures Count(0, bufsz) == 1 && LastOf(0, bufsz) == 0
  {
  }

  /** The buffers that `rcv_pkt` books for a packet hold as many bytes as it adds to `pkt_dlen`
      if and only if the count is right. */
  lemma BookedIff(mem: seq<Byte>, bufs: seq<Buf>, bufs': seq<Buf>, at: nat, len: nat, bufsz: nat)
    requires bufsz > 0 && len > 0
    requires Marks(bufs, bufs', at, Count(len, bufsz), LastOf(len, bufsz))
    requires forall k :: 0 <= k < Count(len, bufsz) ==> bufs[RingIdxIncr(at, k, |bufs|)].len == bufsz
    ensures |Gather(mem, bufs', at, Count(len, bufsz))| == len <==> CountsRight(len, bufsz)
  {
    var fl, last := Count(len, bufsz), LastOf(len, bufsz);
    LastFits(len, bufsz);
    CountRightIff(len, bufsz);
    hide Count, LastOf, CountsRight, Gather;
    forall k | 0 <= k < fl
      ensures bufs'[RingIdxIncr(at, k, |bufs'|)].len == if k == fl - 1 then last else bufsz { }
    PacketLength(bufsz, mem, bufs', at, fl, last);
  }

  lemma LastFits(len: nat, bufsz: nat)
    requires bufsz > 0 && len > 0
    ensures 0 < LastOf(len, bufsz) <= bufsz
  {
    hide IsPow2, GetNextPowof2;
    RoundUpFixed(bufsz);
    if IsPow2(len) {
      var unit := GetNextPowof2(bufsz);
      if len < unit {
        PowerBelow(len, bufsz);
        ModUnique(len, 0, len, unit);
      } else {
        var m := PowerAbove(len, bufsz);
        ModUnique(len, m, 0, unit);
      }
    }
  }

  /** The bytes that the driver will hand out for a packet of `len` bytes in the buffers from
      slot `at` on. */
  function PacketBytes(mem: seq<Byte>, bufs: seq<Buf>, at: nat, len: nat, bufsz: nat): (s: seq<Byte>)
    requires at < |bufs| && bufsz > 0
    ensures |s| == len
    decreases len
  {
    if len <= bufsz then Bytes(mem, bufs[at].addr, len)
    else Bytes(mem, bufs[at].addr, bufsz) + PacketBytes(mem, bufs, RingIdxIncr(at, 1, |bufs|), len - bufsz, bufsz)
  }

  /** What the driver will hand out for consecutive packets. */
  function StreamBytes(mem: seq<Byte>, bufs: seq<Buf>, at: nat, lens: seq<nat>, bufsz: nat): seq<Byte>
    requires at < |bufs| && bufsz > 0 && NeedAll(lens, bufsz) < |bufs|
    decreases |lens|
  {
    if lens == [] then []
    else PacketBytes(mem, bufs, at, lens[0], bufsz) +
         StreamBytes(mem, bufs, RingIdxIncr(at, Need(lens[0], bufsz), |bufs|), lens[1..], bufsz)
  }

  function NeedAll(lens: seq<nat>, bufsz: nat): nat
    requires bufsz > 0
  {
    if lens == [] then 0 else Need(lens[0], bufsz) + NeedAll(lens[1..], bufsz)
  }

  lemma {:induction false} NeedAllTake(lens: seq<nat>, bufsz: nat, m: nat)
    requires bufsz > 0 && m <= |lens|
    ensures NeedAll(lens[..m], bufsz) <= NeedAll(lens, bufsz)
    ensures NeedAll(lens[m..], bufsz) == NeedAll(lens, bufsz) - NeedAll(lens[..m], bufsz)
    decreases m
  {
    if m == 0 {
      assert lens[0..] == lens;
    } else {
      NeedAllTake(lens[1..], bufsz, m - 1);
      assert lens[..m][1..] == lens[1..][..m - 1];
      assert lens[m..] == lens[1..][m - 1..];
    }
  }

  /** Same addresses all round the ring. */
  ghost predicate SameAddrs(bufs: seq<Buf>, bufs': seq<Buf>) {
    |bufs| == |bufs'| && forall s :: 0 <= s < |bufs| ==> bufs'[s].addr == bufs[s].addr && bufs'[s].home == bufs[s].home
  }

  lemma {:induction false} PacketFrame(mem: seq<Byte>, bufs: seq<Buf>, bufs': seq<Buf>, at: nat, len: nat, bufsz: nat)
    requires bufsz > 0 && at < |bufs| == |bufs'| && Need(len, bufsz) < |bufs|
    requires forall k :: 0 <= k < Need(len, bufsz) ==>
             bufs'[RingIdxIncr(at, k, |bufs|)].addr == bufs[RingIdxIncr(at, k, |bufs|)].addr
    ensures PacketBytes(mem, bufs', at, len, bufsz) == PacketBytes(mem, bufs, at, len, bufsz)
    decreases len
  {
    hide Bytes;
    var next := RingIdxIncr(at, 1, |bufs|);
    assert RingIdxIncr(at, 0, |bufs|) == at;
    if len > bufsz {
      forall k | 0 <= k < Need(len, bufsz) - 1
        ensures RingIdxIncr(next, k, |bufs|) == RingIdxIncr(at, k + 1, |bufs|) { }
      PacketFrame(mem, bufs, bufs', next, len - bufsz, bufsz);
    }
  }

  /** Only the addresses of the buffers used matter. */
  lemma {:induction false} StreamFrame(mem: seq<Byte>, bufs: seq<Buf>, bufs': seq<Buf>, at: nat, lens: seq<nat>,
                                       bufsz: nat)
    requires bufsz > 0 && at < |bufs| == |bufs'| && NeedAll(lens, bufsz) < |bufs|
    requires forall k :: 0 <= k < NeedAll(lens, bufsz) ==>
             bufs'[RingIdxIncr(at, k, |bufs|)].addr == bufs[RingIdxIncr(at, k, |bufs|)].addr
    ensures StreamBytes(mem, bufs', at, lens, bufsz) == StreamBytes(mem, bufs, at, lens, bufsz)
    decreases |lens|
  {
    hide Need, PacketBytes;
    if lens != [] {
      var need := Need(lens[0], bufsz);
      var next := RingIdxIncr(at, need, |bufs|);
      forall k | 0 <= k < NeedAll(lens[1..], bufsz)
        ensures RingIdxIncr(next, k, |bufs|) == RingIdxIncr(at, need + k, |bufs|) { }
      PacketFrame(mem, bufs, bufs', at, lens[0], bufsz);
      StreamFrame(mem, bufs, bufs', next, lens[1..], bufsz);
    }
  }

  /** Lengths of the buffers of a packet: all full but the last. */
  ghost predicate Filled(bufs: seq<Buf>, at: nat, fl: nat, last: nat, bufsz: nat) {
    && at < |bufs| && 0 < fl <= |bufs|
    && (forall k :: 0 <= k < fl - 1 ==> bufs[RingIdxIncr(at, k, |bufs|)].len == bufsz)
    && bufs[RingIdxIncr(at, fl - 1, |bufs|)].len == last
  }

  /** The buffers hold the packet, no byte more. */
  lemma {:induction false} GatherIsPacket(mem: seq<Byte>, bufs: seq<Buf>, at: nat, len: nat, bufsz: nat)
    requires bufsz > 0 && Filled(bufs, at, Need(len, bufsz), LastLen(len, bufsz), bufsz)
    ensures Gather(mem, bufs, at, Need(len, bufsz)) == PacketBytes(mem, bufs, at, len, bufsz)
    decreases len
  {
    var next := RingIdxIncr(at, 1, |bufs|);
    assert RingIdxIncr(at, 0, |bufs|) == at;
    if len <= bufsz {
      assert Gather(mem, bufs, at, 1) == Contents(mem, bufs[at]) + Gather(mem, bufs, next, 0);
    } else {
      var m := Need(len - bufsz, bufsz);
      forall k | 0 <= k < m ensures RingIdxIncr(next, k, |bufs|) == RingIdxIncr(at, k + 1, |bufs|) { }
      GatherIsPacket(mem, bufs, next, len - bufsz, bufsz);
    }
  }

  /** Receiving a packet appends exactly its bytes to the unread ones. */
  lemma ReceivePacket(bufsz: nat, mem: seq<Byte>, w: Win, bufs': seq<Buf>, len: nat)
    requires bufsz > 0 && Inv(bufsz, mem, w) && w.lag == 0 && Need(len, bufsz) <= w.avail
    requires Marks(w.bufs, bufs', RingIdxIncr(w.base, w.cnt, |w.bufs|), Need(len, bufsz), LastLen(len, bufsz))
    ensures var u := Receive(w, bufs', Need(len, bufsz), len);
            && Inv(bufsz, mem, u) && SameAddrs(w.bufs, bufs')
            && Pending(mem, u) == Pending(mem, w) +
                                  PacketBytes(mem, w.bufs, RingIdxIncr(w.base, w.cnt, |w.bufs|), len, bufsz)
  {
    var n, at, fl, last := |w.bufs|, RingIdxIncr(w.base, w.cnt, |w.bufs|), Need(len, bufsz), LastLen(len, bufsz);
    LastLenSplits(len, bufsz);
    ReceiveKeeps(bufsz, mem, w, bufs', fl, last, len);
    ReceiveSlots(bufsz, w, bufs', fl, last);
    GatherIsPacket(mem, bufs', at, len, bufsz);
    MarksKeepAddrs(w.bufs, bufs', at, fl, last);
    PacketFrame(mem, w.bufs, bufs', at, len, bufsz);
  }

  lemma MarksKeepAddrs(bufs: seq<Buf>, bufs': seq<Buf>, at: nat, fl: nat, last: nat)
    requires Marks(bufs, bufs', at, fl, last)
    ensures SameAddrs(bufs, bufs')
  {
    var n := |bufs|;
    forall s | 0 <= s < n ensures bufs'[s].addr == bufs[s].addr && bufs'[s].home == bufs[s].home {
      assert s == RingIdxIncr(at, if s >= at then s - at else s + n - at, n);
    }
  }

  // ----- packets as the queue accepts them -----

  /** The buffers that the device may use are not marked yet. */
  lemma FreeSlots(bufsz: nat, mem: seq<Byte>, bufs: seq<Buf>, head: nat, upto: nat, avail: nat, pktDlen: nat)
    requires head < |bufs| && upto < |bufs| && Inv(bufsz, mem, WinOf(bufs, head, head, upto, avail, pktDlen))
    ensures avail == |bufs| - 1 - RingIdxDelta(upto, head, |bufs|)
    ensures forall k :: 0 <= k < avail ==> !bufs[RingIdxIncr(upto, k, |bufs|)].valid
  {
    var n, cnt := |bufs|, RingIdxDelta(upto, head, |bufs|);
    forall k | 0 <= k < avail ensures !bufs[RingIdxIncr(upto, k, n)].valid {
      assert RingIdxIncr(upto, k, n) == RingIdxIncr(head, cnt + k, n);
    }
  }

  /** The C2H ledger between two calls: a buffer is marked exactly while it lies from
      `pidx_pend` up to `pidx`, and all others but one are the device's. */
  lemma MarkedIffUnread(bufsz: nat, mem: seq<Byte>, bufs: seq<Buf>, head: nat, upto: nat, avail: nat, pktDlen: nat)
    requires head < |bufs| && upto < |bufs| && Inv(bufsz, mem, WinOf(bufs, head, head, upto, avail, pktDlen))
    ensures avail + RingIdxDelta(upto, head, |bufs|) == |bufs| - 1
    ensures forall s :: 0 <= s < |bufs| ==>
            (bufs[s].valid <==> RingIdxDelta(s, head, |bufs|) < RingIdxDelta(upto, head, |bufs|))
  {
    forall s | 0 <= s < |bufs|
      ensures bufs[s].valid <==> RingIdxDelta(s, head, |bufs|) < RingIdxDelta(upto, head, |bufs|)
    {
      assert s == RingIdxIncr(head, RingIdxDelta(s, head, |bufs|), |bufs|);
    }
  }

  lemma Accepted(head: nat, upto: nat, posted: nat, fl: nat, n: nat)
    requires head < n && upto < n && posted < n &&
             fl <= RingIdxDelta(posted, upto, n) <= n - 1 - RingIdxDelta(upto, head, n)
    ensures var next := RingIdxIncr(upto, fl, n);
            && next < n && RingIdxDelta(next, head, n) == RingIdxDelta(upto, head, n) + fl
            && RingIdxDelta(posted, next, n) == RingIdxDelta(posted, upto, n) - fl
            && RingIdxIncr(head, RingIdxDelta(upto, head, n), n) == upto
  {
  }

  /** A packet in posted buffers is accepted, and its bytes go behind the unread ones. */
  lemma AcceptKeeps(bufsz: nat, mem: seq<Byte>, bufs: seq<Buf>, bufs': seq<Buf>, head: nat, upto: nat, posted: nat,
                    avail: nat, pktDlen: nat, len: nat)
    requires bufsz > 0 && head < |bufs| && upto < |bufs| && posted < |bufs|
    requires Inv(bufsz, mem, WinOf(bufs, head, head, upto, avail, pktDlen))
    requires Need(len, bufsz) <= RingIdxDelta(posted, upto, |bufs|) <= avail
    requires Marks(bufs, bufs', upto, Need(len, bufsz), LastLen(len, bufsz))
    ensures var n, next := |bufs|, RingIdxIncr(upto, Need(len, bufsz), |bufs|);
            && next < n && SameAddrs(bufs, bufs')
            && WinOf(bufs', head, head, next, avail - Need(len, bufsz), pktDlen + len)
               == Receive(WinOf(bufs, head, head, upto, avail, pktDlen), bufs', Need(len, bufsz), len)
            && RingIdxDelta(posted, next, n) == RingIdxDelta(posted, upto, n) - Need(len, bufsz)
            && Inv(bufsz, mem, WinOf(bufs', head, head, next, avail - Need(len, bufsz), pktDlen + len))
            && Gather(mem, bufs', head, RingIdxDelta(next, head, n))
               == Gather(mem, bufs, head, RingIdxDelta(upto, head, n)) + PacketBytes(mem, bufs, upto, len, bufsz)
  {
    hide Inv, Gather, Marks, SameAddrs;
    var w := WinOf(bufs, head, head, upto, avail, pktDlen);
    var next, fl := RingIdxIncr(upto, Need(len, bufsz), |bufs|), Need(len, bufsz);
    InvShape(bufsz, mem, w);
    Accepted(head, upto, posted, fl, |bufs|);
    ReceivePacket(bufsz, mem, w, bufs', len);
    MarksKeepAddrs(bufs, bufs', upto, fl, LastLen(len, bufsz));
    SameAddrsLength(bufs, bufs');
    assert Receive(w, bufs', fl, len) == WinOf(bufs', head, head, next, avail - fl, pktDlen + len);
    PendingIsGather(mem, bufs, head, head, upto, avail, pktDlen);
    PendingIsGather(mem, bufs', head, head, next, avail - fl, pktDlen + len);
  }

  lemma SameAddrsLength(bufs: seq<Buf>, bufs': seq<Buf>)
    requires SameAddrs(bufs, bufs')
    ensures |bufs'| == |bufs|
  {
  }

  lemma StreamPeel(mem: seq<Byte>, bufs: seq<Buf>, bufs': seq<Buf>, at: nat, lens: seq<nat>, bufsz: nat)
    requires at < |bufs| && bufsz > 0 && NeedAll(lens, bufsz) < |bufs| && SameAddrs(bufs, bufs') && lens != []
    ensures NeedAll(lens, bufsz) == Need(lens[0], bufsz) + NeedAll(lens[1..], bufsz)
    ensures var next := RingIdxIncr(at, Need(lens[0], bufsz), |bufs|);
            && |bufs'| == |bufs|
            && StreamBytes(mem, bufs, at, lens, bufsz)
               == PacketBytes(mem, bufs, at, lens[0], bufsz) + StreamBytes(mem, bufs', next, lens[1..], bufsz)
  {
    StreamFrame(mem, bufs, bufs', RingIdxIncr(at, Need(lens[0], bufsz), |bufs|), lens[1..], bufsz);
  }

  lemma StreamOfNone(mem: seq<Byte>, bufs: seq<Buf>, at: nat, bufsz: nat)
    requires at < |bufs| && bufsz > 0
    ensures NeedAll([], bufsz) == 0 && StreamBytes(mem, bufs, at, [], bufsz) == []
  {
  }
}
