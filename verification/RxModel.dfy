/** Values and invariants of the streaming card-to-host receive path: a ring of receive
    buffers that packets fill from one end and readers drain from the other. */
module RxModel {
  import opened Ring
  import opened BufferCount

  type Byte = bv8

  /** A receive buffer: the address given to the device, the address and length from which
      the driver will read next (`struct qdma_sw_sg`), and the `valid` bit. */
  datatype Buf = Buf(home: nat, addr: nat, len: nat, valid: bool)

  /** Memory; addresses past its end are nobody's. */
  function Peek(mem: seq<Byte>, a: nat): Byte {
    if a < |mem| then mem[a] else 0
  }

  function Bytes(mem: seq<Byte>, addr: nat, len: nat): (s: seq<Byte>)
    ensures |s| == len
  {
    seq(len, i requires 0 <= i => Peek(mem, addr + i))
  }

  /** What the driver will read out of a buffer. */
  function Contents(mem: seq<Byte>, b: Buf): seq<Byte> {
    Bytes(mem, b.addr, b.len)
  }

  /** What the driver will read out of `cnt` buffers from slot `start` on. */
  function Gather(mem: seq<Byte>, bufs: seq<Buf>, start: nat, cnt: nat): seq<Byte>
    requires start < |bufs|
    decreases cnt
  {
    if cnt == 0 then []
    else Contents(mem, bufs[start]) + Gather(mem, bufs, RingIdxIncr(start, 1, |bufs|), cnt - 1)
  }

  lemma {:induction false} GatherSplit(mem: seq<Byte>, bufs: seq<Buf>, start: nat, a: nat, b: nat)
    requires start < |bufs| && a + b <= |bufs|
    ensures Gather(mem, bufs, start, a + b) ==
            Gather(mem, bufs, start, a) + Gather(mem, bufs, RingIdxIncr(start, a, |bufs|), b)
    decreases a
  {
    if a > 0 {
      var next := RingIdxIncr(start, 1, |bufs|);
      GatherSplit(mem, bufs, next, a - 1, b);
      assert RingIdxIncr(next, a - 1, |bufs|) == RingIdxIncr(start, a, |bufs|);
    }
  }

  /** Buffers and memory agree as far as `cnt` buffers from `start` on are concerned. */
  ghost predicate SameReads(mem: seq<Byte>, bufs: seq<Buf>, mem': seq<Byte>, bufs': seq<Buf>, start: nat, cnt: nat) {
    && start < |bufs| == |bufs'| && cnt <= |bufs|
    && forall k :: 0 <= k < cnt ==>
         var s := RingIdxIncr(start, k, |bufs|);
         Contents(mem, bufs[s]) == Contents(mem', bufs'[s])
  }

  lemma {:induction false} GatherFrame(mem: seq<Byte>, bufs: seq<Buf>, mem': seq<Byte>, bufs': seq<Buf>, start: nat,
                                       cnt: nat)
    requires SameReads(mem, bufs, mem', bufs', start, cnt)
    ensures Gather(mem, bufs, start, cnt) == Gather(mem', bufs', start, cnt)
    decreases cnt
  {
    if cnt > 0 {
      var next := RingIdxIncr(start, 1, |bufs|);
      assert RingIdxIncr(start, 0, |bufs|) == start;
      forall k | 0 <= k < cnt - 1
        ensures var s := RingIdxIncr(next, k, |bufs|); Contents(mem, bufs[s]) == Contents(mem', bufs'[s])
      {
        assert RingIdxIncr(next, k, |bufs|) == RingIdxIncr(start, k + 1, |bufs|);
      }
      GatherFrame(mem, bufs, mem', bufs', next, cnt - 1);
    }
  }

  // ----- the ledger -----

  /** The ring as the queue keeps it between two steps. From slot `base` on there are `lag`
      drained buffers not refilled yet, then `cnt` buffers holding received bytes; all others
      are the device's. */
  datatype Win = Win(bufs: seq<Buf>, base: nat, lag: nat, cnt: nat, avail: nat, pktDlen: nat)

  ghost predicate Inv(bufsz: nat, mem: seq<Byte>, w: Win) {
    var n := |w.bufs|;
    && w.base < n && w.lag + w.cnt < n && w.avail + w.lag + w.cnt == n - 1
    && (forall k :: 0 <= k < n ==> (w.bufs[RingIdxIncr(w.base, k, n)].valid <==> k < w.lag + w.cnt))
    && (forall k :: w.lag + w.cnt <= k < n ==> w.bufs[RingIdxIncr(w.base, k, n)].len == bufsz)
    && w.pktDlen == |Pending(mem, w)|
  }

  /** The unread received bytes, in order. */
  function Pending(mem: seq<Byte>, w: Win): seq<Byte>
    requires w.base < |w.bufs| && w.lag + w.cnt < |w.bufs|
  {
    Gather(mem, w.bufs, RingIdxIncr(w.base, w.lag, |w.bufs|), w.cnt)
  }

  /** The ring of `descq_flq_alloc_resource`. */
  function FreshBufs(homes: seq<nat>, bufsz: nat): seq<Buf> {
    seq(|homes|, k requires 0 <= k < |homes| => Buf(homes[k], homes[k], bufsz, false))
  }

  // ----- a packet arrives -----

  /** The buffers after a packet took `fl` of them, from slot `at` on: all valid, the last one
      cut to `last` bytes. */
  ghost predicate Marks(bufs: seq<Buf>, bufs': seq<Buf>, at: nat, fl: nat, last: nat) {
    var n := |bufs|;
    && |bufs'| == n && at < n && 0 < fl < n
    && forall k :: 0 <= k < n ==>
         var s := RingIdxIncr(at, k, n);
         bufs'[s] == if k < fl then bufs[s].(valid := true, len := if k == fl - 1 then last else bufs[s].len)
           else bufs[s]
  }

  function Receive(w: Win, bufs': seq<Buf>, fl: nat, len: nat): Win
    requires fl <= w.avail
  {
    w.(bufs := bufs', cnt := w.cnt + fl, avail := w.avail - fl, pktDlen := w.pktDlen + len)
  }

  lemma {:induction false} GatherFull(mem: seq<Byte>, bufs: seq<Buf>, at: nat, fl: nat, bufsz: nat)
    requires at < |bufs| && fl <= |bufs|
    requires forall k :: 0 <= k < fl ==> bufs[RingIdxIncr(at, k, |bufs|)].len == bufsz
    ensures |Gather(mem, bufs, at, fl)| == fl * bufsz
    decreases fl
  {
    if fl > 0 {
      var next := RingIdxIncr(at, 1, |bufs|);
      assert RingIdxIncr(at, 0, |bufs|) == at;
      forall k | 0 <= k < fl - 1 ensures bufs[RingIdxIncr(next, k, |bufs|)].len == bufsz {
        assert RingIdxIncr(next, k, |bufs|) == RingIdxIncr(at, k + 1, |bufs|);
      }
      GatherFull(mem, bufs, next, fl - 1, bufsz);
      assert fl * bufsz == bufsz + (fl - 1) * bufsz;
    }
  }

  /** The bytes the driver takes the new packet to be: as many as its length says. */
  lemma PacketLength(bufsz: nat, mem: seq<Byte>, bufs: seq<Buf>, at: nat, fl: nat, last: nat)
    requires at < |bufs| && 0 < fl <= |bufs|
    requires forall k :: 0 <= k < fl - 1 ==> bufs[RingIdxIncr(at, k, |bufs|)].len == bufsz
    requires bufs[RingIdxIncr(at, fl - 1, |bufs|)].len == last
    ensures |Gather(mem, bufs, at, fl)| == (fl - 1) * bufsz + last
  {
    GatherSplit(mem, bufs, at, fl - 1, 1);
    GatherFull(mem, bufs, at, fl - 1, bufsz);
    var s := RingIdxIncr(at, fl - 1, |bufs|);
    assert Gather(mem, bufs, s, 1) == Contents(mem, bufs[s]) + Gather(mem, bufs, RingIdxIncr(s, 1, |bufs|), 0);
  }

  /** A packet of `len` bytes appends to the unread bytes; the ledger stays balanced. */
  lemma ReceiveKeeps(bufsz: nat, mem: seq<Byte>, w: Win, bufs': seq<Buf>, fl: nat, last: nat, len: nat)
    requires Inv(bufsz, mem, w) && w.lag == 0 && 0 < fl <= w.avail
    requires Marks(w.bufs, bufs', RingIdxIncr(w.base, w.cnt, |w.bufs|), fl, last)
    requires len == (fl - 1) * bufsz + last
    ensures var u := Receive(w, bufs', fl, len);
            && Inv(bufsz, mem, u)
            && Pending(mem, u) == Pending(mem, w) + Gather(mem, bufs', RingIdxIncr(w.base, w.cnt, |w.bufs|), fl)
  {
    var n, at := |w.bufs|, RingIdxIncr(w.base, w.cnt, |w.bufs|);
    var u := Receive(w, bufs', fl, len);
    SlotsAhead(w.base, w.cnt, n);
    ReceiveSlots(bufsz, w, bufs', fl, last);
    GatherSplit(mem, bufs', w.base, w.cnt, fl);
    GatherFrame(mem, w.bufs, mem, bufs', w.base, w.cnt);
    PacketLength(bufsz, mem, bufs', at, fl, last);
  }

  /** Slot numbers counted from `base` and from `cnt` places further on. */
  lemma SlotsAhead(base: nat, cnt: nat, n: nat)
    requires base < n && cnt < n
    ensures forall k :: 0 <= k < n ==>
              RingIdxIncr(base, k, n) ==
                RingIdxIncr(RingIdxIncr(base, cnt, n), if k >= cnt then k - cnt else k + n - cnt, n)
  {
  }

  lemma ReceiveSlots(bufsz: nat, w: Win, bufs': seq<Buf>, fl: nat, last: nat)
    requires w.base < |w.bufs| && w.lag == 0 && w.cnt + fl < |w.bufs| && fl > 0
    requires forall k :: 0 <= k < |w.bufs| ==> (w.bufs[RingIdxIncr(w.base, k, |w.bufs|)].valid <==> k < w.cnt)
    requires forall k :: w.cnt <= k < |w.bufs| ==> w.bufs[RingIdxIncr(w.base, k, |w.bufs|)].len == bufsz
    requires Marks(w.bufs, bufs', RingIdxIncr(w.base, w.cnt, |w.bufs|), fl, last)
    ensures forall k :: 0 <= k < |w.bufs| ==> (bufs'[RingIdxIncr(w.base, k, |w.bufs|)].valid <==> k < w.cnt + fl)
    ensures forall k :: w.cnt + fl <= k < |w.bufs| ==> bufs'[RingIdxIncr(w.base, k, |w.bufs|)].len == bufsz
    ensures forall k :: 0 <= k < w.cnt ==>
            bufs'[RingIdxIncr(w.base, k, |w.bufs|)] == w.bufs[RingIdxIncr(w.base, k, |w.bufs|)]
    ensures var at := RingIdxIncr(w.base, w.cnt, |w.bufs|);
            && (forall k :: 0 <= k < fl - 1 ==> bufs'[RingIdxIncr(at, k, |w.bufs|)].len == bufsz)
            && bufs'[RingIdxIncr(at, fl - 1, |w.bufs|)].len == last
  {
    var n, at := |w.bufs|, RingIdxIncr(w.base, w.cnt, |w.bufs|);
    SlotsAhead(w.base, w.cnt, n);
    forall k | 0 <= k < n - w.cnt ensures RingIdxIncr(at, k, n) == RingIdxIncr(w.base, w.cnt + k, n) { }
  }
}
