/** Runs of the receive path: the device writes packets into posted buffers, the queue accepts
    them, readers drain them, drained buffers are recycled. As long as no buffer that a read left
    half empty is recycled away from its home, readers get exactly the bytes that were sent. */
module RxRuns {
  import opened Ring
  import opened RxModel
  import opened RxSteps
  import opened RxPackets
  import opened RxExact

  /** `flying`: packets written to memory and not accepted yet. */
  datatype Rx = Rx(mem: seq<Byte>, w: Win, flying: seq<seq<Byte>>, sent: seq<Byte>, taken: seq<Byte>)

  datatype Event =
    | Land(p: seq<Byte>)
    | Accept(marked: seq<Buf>)
    | Read(i: nat, foff: nat)
    | Recycle(refilled: seq<Buf>)

  function Lens(ps: seq<seq<Byte>>): (ls: seq<nat>)
    ensures |ls| == |ps|
  {
    seq(|ps|, i requires 0 <= i < |ps| => |ps[i]|)
  }

  function Joined(ps: seq<seq<Byte>>): seq<Byte> {
    if ps == [] then [] else ps[0] + Joined(ps[1..])
  }

  lemma {:induction false} JoinedMore(ps: seq<seq<Byte>>, p: seq<Byte>, bufsz: nat)
    requires bufsz > 0
    ensures Joined(ps + [p]) == Joined(ps) + p && Lens(ps + [p]) == Lens(ps) + [|p|]
    ensures NeedAll(Lens(ps) + [|p|], bufsz) == NeedAll(Lens(ps), bufsz) + Need(|p|, bufsz)
    decreases |ps|
  {
    if ps == [] {
      assert NeedAll([|p|], bufsz) == Need(|p|, bufsz) + NeedAll([], bufsz);
    } else {
      JoinedMore(ps[1..], p, bufsz);
      assert (ps + [p])[1..] == ps[1..] + [p];
      assert Lens(ps)[1..] == Lens(ps[1..]) && Lens(ps)[0] == |ps[0]|;
      assert (Lens(ps) + [|p|])[1..] == Lens(ps[1..]) + [|p|];
    }
  }

  lemma {:induction false} JoinedSplit(ps: seq<seq<Byte>>, m: nat)
    requires m <= |ps|
    ensures Joined(ps) == Joined(ps[..m]) + Joined(ps[m..])
    decreases m
  {
    if m == 0 {
      assert ps[0..] == ps;
    } else {
      JoinedSplit(ps[1..], m - 1);
      assert ps[..m][1..] == ps[1..][..m - 1] && ps[m..] == ps[1..][m - 1..];
    }
  }

  // ----- memory -----

  /** The buffers of `fl` slots from `at` read the same in both memories. */
  ghost predicate SameBytes(mem: seq<Byte>, mem': seq<Byte>, bufs: seq<Buf>, at: nat, fl: nat, bufsz: nat) {
    && at < |bufs| && fl <= |bufs|
    && forall k :: 0 <= k < fl ==>
         var b := bufs[RingIdxIncr(at, k, |bufs|)]; Bytes(mem, b.addr, bufsz) == Bytes(mem', b.addr, bufsz)
  }

  lemma SameBytesParts(mem: seq<Byte>, mem': seq<Byte>, bufs: seq<Buf>, at: nat, fl: nat, bufsz: nat, m: nat)
    requires SameBytes(mem, mem', bufs, at, fl, bufsz) && m <= fl < |bufs|
    ensures SameBytes(mem, mem', bufs, at, m, bufsz) &&
            SameBytes(mem, mem', bufs, RingIdxIncr(at, m, |bufs|), fl - m, bufsz)
  {
    var next := RingIdxIncr(at, m, |bufs|);
    forall k | 0 <= k < fl - m ensures RingIdxIncr(next, k, |bufs|) == RingIdxIncr(at, m + k, |bufs|) { }
  }

  lemma ShorterBytes(mem: seq<Byte>, mem': seq<Byte>, addr: nat, len: nat, m: nat)
    requires Bytes(mem, addr, len) == Bytes(mem', addr, len) && m <= len
    ensures Bytes(mem, addr, m) == Bytes(mem', addr, m)
  {
    assert Bytes(mem, addr, m) == Bytes(mem, addr, len)[..m];
    assert Bytes(mem', addr, m) == Bytes(mem', addr, len)[..m];
  }

  lemma {:induction false} PacketSame(mem: seq<Byte>, mem': seq<Byte>, bufs: seq<Buf>, at: nat, len: nat, bufsz: nat)
    requires bufsz > 0 && Need(len, bufsz) < |bufs| && SameBytes(mem, mem', bufs, at, Need(len, bufsz), bufsz)
    ensures PacketBytes(mem, bufs, at, len, bufsz) == PacketBytes(mem', bufs, at, len, bufsz)
    decreases len
  {
    hide Bytes;
    assert RingIdxIncr(at, 0, |bufs|) == at;
    if len <= bufsz {
      ShorterBytes(mem, mem', bufs[at].addr, bufsz, len);
    } else {
      SameBytesParts(mem, mem', bufs, at, Need(len, bufsz), bufsz, 1);
      PacketSame(mem, mem', bufs, RingIdxIncr(at, 1, |bufs|), len - bufsz, bufsz);
    }
  }

  lemma {:induction false} StreamSame(mem: seq<Byte>, mem': seq<Byte>, bufs: seq<Buf>, at: nat, lens: seq<nat>,
                                      bufsz: nat)
    requires bufsz > 0 && NeedAll(lens, bufsz) < |bufs| && SameBytes(mem, mem', bufs, at, NeedAll(lens, bufsz), bufsz)
    ensures StreamBytes(mem, bufs, at, lens, bufsz) == StreamBytes(mem', bufs, at, lens, bufsz)
    decreases |lens|
  {
    hide SameBytes, Need, PacketBytes;
    SameBytesShape(mem, mem', bufs, at, NeedAll(lens, bufsz), bufsz);
    if lens != [] {
      SameBytesParts(mem, mem', bufs, at, NeedAll(lens, bufsz), bufsz, Need(lens[0], bufsz));
      PacketSame(mem, mem', bufs, at, lens[0], bufsz);
      StreamSame(mem, mem', bufs, RingIdxIncr(at, Need(lens[0], bufsz), |bufs|), lens[1..], bufsz);
    }
  }

  lemma SameBytesShape(mem: seq<Byte>, mem': seq<Byte>, bufs: seq<Buf>, at: nat, fl: nat, bufsz: nat)
    requires SameBytes(mem, mem', bufs, at, fl, bufsz)
    ensures at < |bufs|
  {
  }

  lemma {:induction false} NeedMore(lens: seq<nat>, len: nat, bufsz: nat)
    requires bufsz > 0
    ensures NeedAll(lens + [len], bufsz) == NeedAll(lens, bufsz) + Need(len, bufsz)
  {
    hide Need;
    if lens == [] {
      assert NeedAll([len], bufsz) == Need(len, bufsz) + NeedAll([], bufsz);
    } else {
      NeedMore(lens[1..], len, bufsz);
      assert (lens + [len])[1..] == lens[1..] + [len];
    }
  }

  lemma StreamFirst(mem: seq<Byte>, bufs: seq<Buf>, at: nat, lens: seq<nat>, bufsz: nat)
    requires bufsz > 0 && at < |bufs| && lens != [] && NeedAll(lens, bufsz) < |bufs|
    ensures NeedAll(lens, bufsz) == Need(lens[0], bufsz) + NeedAll(lens[1..], bufsz)
    ensures StreamBytes(mem, bufs, at, lens, bufsz) ==
            PacketBytes(mem, bufs, at, lens[0], bufsz) +
            StreamBytes(mem, bufs, RingIdxIncr(at, Need(lens[0], bufsz), |bufs|), lens[1..], bufsz)
  {
    hide Need, PacketBytes;
  }

  lemma {:induction false} StreamMore(mem: seq<Byte>, bufs: seq<Buf>, at: nat, lens: seq<nat>, len: nat, bufsz: nat)
    requires bufsz > 0 && at < |bufs| && NeedAll(lens, bufsz) + Need(len, bufsz) < |bufs|
    ensures NeedAll(lens + [len], bufsz) == NeedAll(lens, bufsz) + Need(len, bufsz)
    ensures StreamBytes(mem, bufs, at, lens + [len], bufsz) ==
            StreamBytes(mem, bufs, at, lens, bufsz) +
            PacketBytes(mem, bufs, RingIdxIncr(at, NeedAll(lens, bufsz), |bufs|), len, bufsz)
    decreases |lens|
  {
    NeedMore(lens, len, bufsz);
    StreamFirst(mem, bufs, at, lens + [len], bufsz);
    if lens == [] {
      assert RingIdxIncr(at, 0, |bufs|) == at && ([len])[1..] == [];
    } else {
      hide Need, PacketBytes, NeedAll, StreamBytes;
      StreamFirst(mem, bufs, at, lens, bufsz);
      var next := RingIdxIncr(at, Need(lens[0], bufsz), |bufs|);
      assert (lens + [len])[1..] == lens[1..] + [len];
      StreamMore(mem, bufs, next, lens[1..], len, bufsz);
      assert RingIdxIncr(next, NeedAll(lens[1..], bufsz), |bufs|) == RingIdxIncr(at, NeedAll(lens, bufsz), |bufs|);
    }
  }

  // ----- the invariant -----

  /** The slot that the next accepted packet starts in (`pidx`). */
  function NextAt(w: Win): nat {
    RingIdxIncr(w.base, w.lag + w.cnt, |w.bufs|)
  }

  ghost predicate Within(b: Buf, bufsz: nat) {
    b.home <= b.addr && b.addr + b.len <= b.home + bufsz
  }

  /** Every buffer is at home, except the first unread one, which a read may have begun, and
      those that wait to be recycled. */
  ghost predicate Homed(bufs: seq<Buf>, base: nat, lag: nat, cnt: nat, bufsz: nat) {
    && base < |bufs|
    && (forall k :: lag < k < |bufs| || lag + cnt <= k < |bufs| ==> AtHome(bufs[RingIdxIncr(base, k, |bufs|)]))
    && (forall k :: lag <= k < lag + cnt && k < |bufs| ==> Within(bufs[RingIdxIncr(base, k, |bufs|)], bufsz))
  }

  /** Up to now everything handed out, unread or in flight is what was sent. */
  ghost predicate Delivering(bufsz: nat, s: Rx) {
    && bufsz > 0 && Inv(bufsz, s.mem, s.w) && Laid(s.w.bufs, bufsz, |s.mem|)
    && NeedAll(Lens(s.flying), bufsz) <= s.w.avail
    && StreamBytes(s.mem, s.w.bufs, NextAt(s.w), Lens(s.flying), bufsz) == Joined(s.flying)
    && s.sent == s.taken + Pending(s.mem, s.w) + Joined(s.flying)
  }

  /** And the buffers are where the device will write next. */
  ghost predicate Good(bufsz: nat, s: Rx) {
    Delivering(bufsz, s) && Homed(s.w.bufs, s.w.base, s.w.lag, s.w.cnt, bufsz)
  }

  // ----- the device writes -----

  /** Packet `p`, landing behind `fl` buffers of packets not accepted yet, leaves slot
      `w.lag + j` from `base` alone if that comes before it. */
  lemma LandBeyond(bufsz: nat, mem: seq<Byte>, w: Win, fl: nat, p: seq<Byte>, j: nat, addr: nat, len: nat)
    requires bufsz > 0 && w.base < |w.bufs| && w.lag + w.cnt + fl + Need(|p|, bufsz) < |w.bufs| &&
             Laid(w.bufs, bufsz, |mem|)
    requires j < w.cnt + fl
    requires var b := w.bufs[RingIdxIncr(w.base, w.lag + j, |w.bufs|)]; b.home <= addr && addr + len <= b.home + bufsz
    ensures var at := RingIdxIncr(NextAt(w), fl, |w.bufs|);
            at < |w.bufs| && Bytes(Dma(mem, w.bufs, at, p, bufsz), addr, len) == Bytes(mem, addr, len)
  {
    hide Laid, Dma, Need, Bytes;
    var s, at := RingIdxIncr(w.base, w.lag + j, |w.bufs|), RingIdxIncr(NextAt(w), fl, |w.bufs|);
    DmaKeepsBytes(mem, w.bufs, at, p, bufsz, s, addr, len);
  }

  lemma LandKeepsUnread(bufsz: nat, mem: seq<Byte>, w: Win, fl: nat, p: seq<Byte>)
    requires bufsz > 0 && w.base < |w.bufs| && w.lag + w.cnt + fl + Need(|p|, bufsz) < |w.bufs|
    requires Laid(w.bufs, bufsz, |mem|) && Homed(w.bufs, w.base, w.lag, w.cnt, bufsz)
    ensures var at := RingIdxIncr(NextAt(w), fl, |w.bufs|);
            at < |w.bufs| && Pending(Dma(mem, w.bufs, at, p, bufsz), w) == Pending(mem, w)
  {
    hide Laid, Dma, Need, Bytes;
    var n, start := |w.bufs|, RingIdxIncr(w.base, w.lag, |w.bufs|);
    var mem' := Dma(mem, w.bufs, RingIdxIncr(NextAt(w), fl, n), p, bufsz);
    forall k | 0 <= k < w.cnt
      ensures var b := w.bufs[RingIdxIncr(start, k, n)]; Contents(mem, b) == Contents(mem', b)
    {
      var s := RingIdxIncr(w.base, w.lag + k, n);
      assert RingIdxIncr(start, k, n) == s && Within(w.bufs[s], bufsz);
      LandBeyond(bufsz, mem, w, fl, p, k, w.bufs[s].addr, w.bufs[s].len);
    }
    GatherFrame(mem, w.bufs, mem', w.bufs, start, w.cnt);
  }

  lemma LandKeepsFlying(bufsz: nat, mem: seq<Byte>, w: Win, fl: nat, p: seq<Byte>)
    requires bufsz > 0 && w.base < |w.bufs| && w.lag + w.cnt + fl + Need(|p|, bufsz) < |w.bufs|
    requires Laid(w.bufs, bufsz, |mem|) && Homed(w.bufs, w.base, w.lag, w.cnt, bufsz)
    ensures var at := RingIdxIncr(NextAt(w), fl, |w.bufs|);
            at < |w.bufs| && SameBytes(mem, Dma(mem, w.bufs, at, p, bufsz), w.bufs, NextAt(w), fl, bufsz)
  {
    hide Laid, Dma, Need, Bytes;
    var n := |w.bufs|;
    var mem' := Dma(mem, w.bufs, RingIdxIncr(NextAt(w), fl, n), p, bufsz);
    forall k | 0 <= k < fl
      ensures var b := w.bufs[RingIdxIncr(NextAt(w), k, n)]; Bytes(mem, b.addr, bufsz) == Bytes(mem', b.addr, bufsz)
    {
      var s := RingIdxIncr(w.base, w.lag + w.cnt + k, n);
      assert RingIdxIncr(NextAt(w), k, n) == s && AtHome(w.bufs[s]);
      LandBeyond(bufsz, mem, w, fl, p, w.cnt + k, w.bufs[s].addr, bufsz);
    }
  }

  lemma FreeAtHome(bufsz: nat, w: Win, fl: nat, need: nat)
    requires w.base < |w.bufs| && w.lag + w.cnt + fl + need < |w.bufs| && Homed(w.bufs, w.base, w.lag, w.cnt, bufsz)
    ensures UsedAtHome(w.bufs, RingIdxIncr(NextAt(w), fl, |w.bufs|), need)
  {
    var n, at := |w.bufs|, RingIdxIncr(NextAt(w), fl, |w.bufs|);
    forall k | 0 <= k < need ensures RingIdxIncr(at, k, n) == RingIdxIncr(w.base, w.lag + w.cnt + fl + k, n) { }
  }

  lemma InvOtherMemory(bufsz: nat, mem: seq<Byte>, mem': seq<Byte>, w: Win)
    requires Inv(bufsz, mem, w) && Pending(mem', w) == Pending(mem, w)
    ensures Inv(bufsz, mem', w)
  {
  }

  function LandAt(w: Win, flying: seq<seq<Byte>>, bufsz: nat): nat
    requires bufsz > 0
  {
    RingIdxIncr(NextAt(w), NeedAll(Lens(flying), bufsz), |w.bufs|)
  }

  lemma LandKeeps(bufsz: nat, s: Rx, p: seq<Byte>)
    requires Good(bufsz, s) && NeedAll(Lens(s.flying), bufsz) + Need(|p|, bufsz) <= s.w.avail
    ensures LandAt(s.w, s.flying, bufsz) < |s.w.bufs|
    ensures Good(bufsz, s.(mem := Dma(s.mem, s.w.bufs, LandAt(s.w, s.flying, bufsz), p, bufsz),
                          flying := s.flying + [p], sent := s.sent + p))
  {
    hide Inv, Pending, Need, NeedAll, StreamBytes, PacketBytes, Dma, Laid, Homed, UsedAtHome, SameBytes, Lens, Joined,
      RingIdxIncr;
    var w, lens, fl := s.w, Lens(s.flying), NeedAll(Lens(s.flying), bufsz);
    InvShape(bufsz, s.mem, w);
    LandKeepsUnread(bufsz, s.mem, w, fl, p);
    LandKeepsFlying(bufsz, s.mem, w, fl, p);
    FreeAtHome(bufsz, w, fl, Need(|p|, bufsz));
    var at := LandAt(w, s.flying, bufsz);
    var mem' := Dma(s.mem, w.bufs, at, p, bufsz);
    InvOtherMemory(bufsz, s.mem, mem', w);
    StreamSame(s.mem, mem', w.bufs, NextAt(w), lens, bufsz);
    SameBytesShape(s.mem, mem', w.bufs, NextAt(w), fl, bufsz);
    StreamMore(mem', w.bufs, NextAt(w), lens, |p|, bufsz);
    ReadsBack(s.mem, w.bufs, at, p, bufsz);
    JoinedMore(s.flying, p, bufsz);
  }

  // ----- the queue accepts -----

  /** The marking of a packet's buffers leaves everything at home. */
  lemma AcceptHomed(bufsz: nat, mem: seq<Byte>, w: Win, marked: seq<Buf>, fl: nat, last: nat)
    requires Inv(bufsz, mem, w) && Homed(w.bufs, w.base, 0, w.cnt, bufsz) && w.lag == 0 && w.cnt + fl < |w.bufs| &&
             last <= bufsz
    requires Marks(w.bufs, marked, NextAt(w), fl, last)
    ensures Homed(marked, w.base, 0, w.cnt + fl, bufsz)
  {
    var n, at := |w.bufs|, NextAt(w);
    hide Pending, Gather;
    forall k | 0 <= k < n
      ensures var b, b' := w.bufs[RingIdxIncr(w.base, k, n)], marked[RingIdxIncr(w.base, k, n)];
              && b'.addr == b.addr && b'.home == b.home
              && (if k < w.cnt then b' == b else b'.len <= bufsz)
    {
      assert RingIdxIncr(w.base, k, n) == RingIdxIncr(at, if k >= w.cnt then k - w.cnt else k + n - w.cnt, n);
    }
  }

  lemma MarksKeepLaid(bufs: seq<Buf>, marked: seq<Buf>, at: nat, fl: nat, last: nat, bufsz: nat, size: nat)
    requires Marks(bufs, marked, at, fl, last) && Laid(bufs, bufsz, size)
    ensures Laid(marked, bufsz, size)
  {
    var n := |bufs|;
    forall s | 0 <= s < n ensures marked[s].home == bufs[s].home {
      assert s == RingIdxIncr(at, if s >= at then s - at else s + n - at, n);
    }
  }

  /** The packet that is next is read as it was sent. */
  lemma FirstFlying(bufsz: nat, mem: seq<Byte>, bufs: seq<Buf>, at: nat, flying: seq<seq<Byte>>)
    requires bufsz > 0 && at < |bufs| && flying != [] && NeedAll(Lens(flying), bufsz) < |bufs|
    requires StreamBytes(mem, bufs, at, Lens(flying), bufsz) == Joined(flying)
    ensures Need(|flying[0]|, bufsz) + NeedAll(Lens(flying[1..]), bufsz) == NeedAll(Lens(flying), bufsz)
    ensures PacketBytes(mem, bufs, at, |flying[0]|, bufsz) == flying[0]
    ensures StreamBytes(mem, bufs, RingIdxIncr(at, Need(|flying[0]|, bufsz), |bufs|), Lens(flying[1..]), bufsz) ==
            Joined(flying[1..])
  {
    hide Need, PacketBytes;
    assert Lens(flying)[0] == |flying[0]| && Lens(flying)[1..] == Lens(flying[1..]);
    var rest := StreamBytes(mem, bufs, RingIdxIncr(at, Need(|flying[0]|, bufsz), |bufs|), Lens(flying[1..]), bufsz);
    var first := PacketBytes(mem, bufs, at, |flying[0]|, bufsz);
    assert (first + rest)[..|first|] == first && (first + rest)[|first|..] == rest;
  }

  lemma AcceptDelivers(bufsz: nat, s: Rx, marked: seq<Buf>)
    requires Delivering(bufsz, s) && s.flying != [] && s.w.lag == 0
    requires Marks(s.w.bufs, marked, NextAt(s.w), Need(|s.flying[0]|, bufsz), LastLen(|s.flying[0]|, bufsz))
    ensures Need(|s.flying[0]|, bufsz) <= s.w.avail && |marked| == |s.w.bufs|
    ensures Delivering(bufsz, s.(w := Receive(s.w, marked, Need(|s.flying[0]|, bufsz), |s.flying[0]|),
                                flying := s.flying[1..]))
  {
    hide Inv, Pending, Need, LastLen, NeedAll, StreamBytes, PacketBytes, Laid, Marks, Lens;
    var w, n, len := s.w, |s.w.bufs|, |s.flying[0]|;
    var fl := Need(len, bufsz);
    InvShape(bufsz, s.mem, w);
    FirstFlying(bufsz, s.mem, w.bufs, NextAt(w), s.flying);
    ReceivePacket(bufsz, s.mem, w, marked, len);
    SameAddrsLength(w.bufs, marked);
    MarksKeepLaid(w.bufs, marked, NextAt(w), fl, LastLen(len, bufsz), bufsz, |s.mem|);
    StreamFrame(s.mem, w.bufs, marked, RingIdxIncr(NextAt(w), fl, n), Lens(s.flying[1..]), bufsz);
    assert s.flying[0] + Joined(s.flying[1..]) == Joined(s.flying);
  }

  lemma AcceptKeeps(bufsz: nat, s: Rx, marked: seq<Buf>)
    requires Good(bufsz, s) && s.flying != [] && s.w.lag == 0
    requires Marks(s.w.bufs, marked, NextAt(s.w), Need(|s.flying[0]|, bufsz), LastLen(|s.flying[0]|, bufsz))
    ensures Need(|s.flying[0]|, bufsz) <= s.w.avail
    ensures Good(bufsz, s.(w := Receive(s.w, marked, Need(|s.flying[0]|, bufsz), |s.flying[0]|),
                          flying := s.flying[1..]))
  {
    hide Inv, Pending, Need, LastLen, NeedAll, StreamBytes, PacketBytes, Laid, Homed, Marks, Lens, Joined;
    AcceptDelivers(bufsz, s, marked);
    InvShape(bufsz, s.mem, s.w);
    LastLenSplits(|s.flying[0]|, bufsz);
    AcceptHomed(bufsz, s.mem, s.w, marked, Need(|s.flying[0]|, bufsz), LastLen(|s.flying[0]|, bufsz));
  }

  // ----- a reader reads -----

  lemma ReadHomed(w: Win, i: nat, foff: nat, bufsz: nat)
    requires CanDrain(w, i, foff) && Homed(w.bufs, w.base, w.lag, w.cnt, bufsz)
    ensures Homed(TrimAt(w.bufs, RingIdxIncr(w.base, w.lag + i, |w.bufs|), foff), w.base, w.lag + i, w.cnt - i, bufsz)
  {
    var n := |w.bufs|;
    forall k | 0 <= k < n && k != w.lag + i ensures RingIdxIncr(w.base, k, n) != RingIdxIncr(w.base, w.lag + i, n) { }
  }

  lemma TrimKeepsLaid(bufs: seq<Buf>, s: nat, foff: nat, bufsz: nat, size: nat)
    requires s < |bufs| && Laid(bufs, bufsz, size)
    ensures Laid(TrimAt(bufs, s, foff), bufsz, size)
  {
  }

  /** Trimming an unread buffer does not concern the packets still to be accepted. */
  lemma TrimKeepsStream(bufsz: nat, mem: seq<Byte>, w: Win, i: nat, foff: nat, lens: seq<nat>)
    requires bufsz > 0 && CanDrain(w, i, foff) && w.lag + w.cnt + NeedAll(lens, bufsz) < |w.bufs|
    ensures StreamBytes(mem, TrimAt(w.bufs, RingIdxIncr(w.base, w.lag + i, |w.bufs|), foff), NextAt(w), lens, bufsz)
            == StreamBytes(mem, w.bufs, NextAt(w), lens, bufsz)
  {
    hide StreamBytes, Need, NeedAll;
    var n, s, at := |w.bufs|, RingIdxIncr(w.base, w.lag + i, |w.bufs|), NextAt(w);
    var bufs' := TrimAt(w.bufs, s, foff);
    forall k | 0 <= k < NeedAll(lens, bufsz)
      ensures bufs'[RingIdxIncr(at, k, n)].addr == w.bufs[RingIdxIncr(at, k, n)].addr
    {
      assert RingIdxIncr(at, k, n) == RingIdxIncr(w.base, w.lag + w.cnt + k, n);
    }
    StreamFrame(mem, w.bufs, bufs', at, lens, bufsz);
  }

  lemma ReadDelivers(bufsz: nat, s: Rx, i: nat, foff: nat)
    requires Delivering(bufsz, s) && CanDrain(s.w, i, foff)
    ensures Taken(s.mem, s.w, i, foff) <= s.w.pktDlen == |Pending(s.mem, s.w)|
    ensures Delivering(bufsz, s.(w := Drain(s.mem, s.w, i, foff),
                                 taken := s.taken + Pending(s.mem, s.w)[..Taken(s.mem, s.w, i, foff)]))
  {
    hide Inv, Pending, NeedAll, StreamBytes, Laid, Lens, Joined, Taken;
    var w, n := s.w, |s.w.bufs|;
    InvShape(bufsz, s.mem, w);
    DrainKeeps(bufsz, s.mem, w, i, foff);
    TrimKeepsStream(bufsz, s.mem, w, i, foff, Lens(s.flying));
    var slot := RingIdxIncr(w.base, w.lag + i, n);
    assert slot < n;
    TrimKeepsLaid(w.bufs, slot, foff, bufsz, |s.mem|);
    var all, k := Pending(s.mem, w), Taken(s.mem, w, i, foff);
    assert all[..k] + all[k..] == all;
  }

  lemma ReadKeeps(bufsz: nat, s: Rx, i: nat, foff: nat)
    requires Good(bufsz, s) && CanDrain(s.w, i, foff)
    ensures Taken(s.mem, s.w, i, foff) <= s.w.pktDlen == |Pending(s.mem, s.w)|
    ensures Good(bufsz, s.(w := Drain(s.mem, s.w, i, foff),
                           taken := s.taken + Pending(s.mem, s.w)[..Taken(s.mem, s.w, i, foff)]))
  {
    hide Inv, Pending, NeedAll, StreamBytes, Laid, Homed, Lens, Joined, Taken;
    ReadDelivers(bufsz, s, i, foff);
    ReadHomed(s.w, i, foff, bufsz);
  }

  // ----- drained buffers are recycled -----

  /** No buffer about to be recycled was ever left half empty by a read. */
  ghost predicate DrainedAtHome(bufs: seq<Buf>, base: nat, lag: nat) {
    base < |bufs| && lag <= |bufs| && forall k :: 0 <= k < lag ==> AtHome(bufs[RingIdxIncr(base, k, |bufs|)])
  }

  /** Recycling keeps the buffers at home exactly when those recycled are: it does not move a
      buffer back. */
  lemma RecycleHomed(w: Win, refilled: seq<Buf>, bufsz: nat)
    requires w.base < |w.bufs| && w.lag + w.cnt < |w.bufs| && Homed(w.bufs, w.base, w.lag, w.cnt, bufsz)
    requires Refilled(w.bufs, refilled, w.base, w.lag, bufsz)
    ensures Homed(refilled, RingIdxIncr(w.base, w.lag, |w.bufs|), 0, w.cnt, bufsz) <==>
            DrainedAtHome(w.bufs, w.base, w.lag)
  {
    var n, base' := |w.bufs|, RingIdxIncr(w.base, w.lag, |w.bufs|);
    forall k | 0 <= k < n
      ensures RingIdxIncr(base', k, n) == RingIdxIncr(w.base, if k + w.lag < n then k + w.lag else k + w.lag - n, n)
    {
    }
    forall k | 0 <= k < w.lag ensures RingIdxIncr(w.base, k, n) == RingIdxIncr(base', n - w.lag + k, n) { }
  }

  lemma RefilledKeepsLaid(bufs: seq<Buf>, refilled: seq<Buf>, at: nat, count: nat, bufsz: nat, size: nat)
    requires Refilled(bufs, refilled, at, count, bufsz) && Laid(bufs, bufsz, size)
    ensures Laid(refilled, bufsz, size) && SameAddrs(bufs, refilled)
  {
    var n := |bufs|;
    forall s | 0 <= s < n ensures refilled[s].home == bufs[s].home && refilled[s].addr == bufs[s].addr {
      assert s == RingIdxIncr(at, if s >= at then s - at else s + n - at, n);
    }
  }

  lemma RecycleDelivers(bufsz: nat, s: Rx, refilled: seq<Buf>)
    requires Delivering(bufsz, s) && Refilled(s.w.bufs, refilled, s.w.base, s.w.lag, bufsz)
    ensures Delivering(bufsz, s.(w := Refill(s.w, refilled)))
  {
    hide Inv, Pending, Need, NeedAll, StreamBytes, Laid, Refilled, Lens, Joined;
    var w := s.w;
    InvShape(bufsz, s.mem, w);
    RefillKeeps(bufsz, s.mem, w, refilled);
    RefilledLength(w.bufs, refilled, w.base, w.lag, bufsz);
    RefilledKeepsLaid(w.bufs, refilled, w.base, w.lag, bufsz, |s.mem|);
    assert NextAt(Refill(w, refilled)) == NextAt(w);
    StreamFrame(s.mem, w.bufs, refilled, NextAt(w), Lens(s.flying), bufsz);
  }

  /** Recycling by itself changes no byte; afterwards all buffers are where the device will
      write if and only if every recycled one was still at home. */
  lemma RecycleKeeps(bufsz: nat, s: Rx, refilled: seq<Buf>)
    requires Good(bufsz, s) && Refilled(s.w.bufs, refilled, s.w.base, s.w.lag, bufsz)
    ensures Delivering(bufsz, s.(w := Refill(s.w, refilled)))
    ensures Good(bufsz, s.(w := Refill(s.w, refilled))) <==> DrainedAtHome(s.w.bufs, s.w.base, s.w.lag)
  {
    hide Inv, Pending, NeedAll, StreamBytes, Laid, Homed, Refilled, DrainedAtHome, Lens, Joined;
    InvShape(bufsz, s.mem, s.w);
    RecycleDelivers(bufsz, s, refilled);
    RecycleHomed(s.w, refilled, bufsz);
  }

  // ----- the same in the terms of the queue -----

  lemma DrainedIsGood(bufsz: nat, mem: seq<Byte>, w: Win, i: nat, foff: nat, copied: nat, u: Win,
                      flying: seq<seq<Byte>>, sent: seq<Byte>, taken: seq<Byte>)
    requires Good(bufsz, Rx(mem, w, flying, sent, taken)) && Drained(mem, w, i, foff, copied, u)
    ensures copied <= |Pending(mem, w)| && Good(bufsz, Rx(mem, u, flying, sent, taken + Pending(mem, w)[..copied]))
  {
    hide Good, CanDrain, Taken, Drain, Pending;
    ReadKeeps(bufsz, Rx(mem, w, flying, sent, taken), i, foff);
  }

  /** Handing back what one read drained: only the buffer it began with can be away from home. */
  lemma HandedBackIsGoodIff(bufsz: nat, mem: seq<Byte>, w: Win, i: nat, foff: nat, copied: nat, u: Win, v: Win,
                            flying: seq<seq<Byte>>, sent: seq<Byte>, taken: seq<Byte>)
    requires Good(bufsz, Rx(mem, w, flying, sent, taken)) && w.lag == 0
    requires Drained(mem, w, i, foff, copied, u) && HandedBack(bufsz, u, v)
    ensures copied <= |Pending(mem, w)| && w.base < |w.bufs|
    ensures Good(bufsz, Rx(mem, v, flying, sent, taken + Pending(mem, w)[..copied])) <==>
            i == 0 || AtHome(w.bufs[w.base])
  {
    DrainedIsGood(bufsz, mem, w, i, foff, copied, u, flying, sent, taken);
    InvShape(bufsz, mem, w);
    OnlyFirstAway(bufsz, w, i, foff);
    hide Good, CanDrain, Taken, Pending, Refilled, DrainedAtHome;
    RecycleKeeps(bufsz, Rx(mem, u, flying, sent, taken + Pending(mem, w)[..copied]), v.bufs);
  }

  lemma OnlyFirstAway(bufsz: nat, w: Win, i: nat, foff: nat)
    requires w.lag == 0 && CanDrain(w, i, foff) && Homed(w.bufs, w.base, w.lag, w.cnt, bufsz)
    ensures w.base < |w.bufs|
    ensures DrainedAtHome(TrimAt(w.bufs, RingIdxIncr(w.base, i, |w.bufs|), foff), w.base, i) <==>
            i == 0 || AtHome(w.bufs[w.base])
  {
    var n := |w.bufs|;
    assert RingIdxIncr(w.base, 0, n) == w.base;
    SlotsDiffer(w.base, i, n);
  }

  lemma RecycledIsGoodIff(bufsz: nat, mem: seq<Byte>, u: Win, v: Win, flying: seq<seq<Byte>>, sent: seq<Byte>,
                          taken: seq<Byte>)
    requires Good(bufsz, Rx(mem, u, flying, sent, taken)) && HandedBack(bufsz, u, v)
    ensures Good(bufsz, Rx(mem, v, flying, sent, taken)) <==> DrainedAtHome(u.bufs, u.base, u.lag)
  {
    hide Good, Refilled, DrainedAtHome;
    RecycleKeeps(bufsz, Rx(mem, u, flying, sent, taken), v.bufs);
  }

  lemma LandedIsGood(bufsz: nat, mem: seq<Byte>, w: Win, flying: seq<seq<Byte>>, sent: seq<Byte>, taken: seq<Byte>,
                     p: seq<Byte>)
    requires Good(bufsz, Rx(mem, w, flying, sent, taken)) && NeedAll(Lens(flying), bufsz) + Need(|p|, bufsz) <= w.avail
    ensures w.base < |w.bufs| && w.lag + w.cnt < |w.bufs| && LandAt(w, flying, bufsz) < |w.bufs| &&
            Laid(w.bufs, bufsz, |mem|)
    ensures var mem' := Dma(mem, w.bufs, LandAt(w, flying, bufsz), p, bufsz);
            Good(bufsz, Rx(mem', w, flying + [p], sent + p, taken)) && Pending(mem', w) == Pending(mem, w)
  {
    hide Inv, Pending, Dma, NeedAll, Need, StreamBytes, PacketBytes, Lens, Joined, Homed, Laid;
    InvShape(bufsz, mem, w);
    LandKeeps(bufsz, Rx(mem, w, flying, sent, taken), p);
    LandKeepsUnread(bufsz, mem, w, NeedAll(Lens(flying), bufsz), p);
  }

  lemma AcceptedIsGood(bufsz: nat, mem: seq<Byte>, w: Win, u: Win, flying: seq<seq<Byte>>, sent: seq<Byte>,
                       taken: seq<Byte>)
    requires Good(bufsz, Rx(mem, w, flying, sent, taken)) && w.lag == 0 && flying != [] &&
             Need(|flying[0]|, bufsz) <= w.avail
    requires Marks(w.bufs, u.bufs, NextAt(w), Need(|flying[0]|, bufsz), LastLen(|flying[0]|, bufsz))
    requires u == Receive(w, u.bufs, Need(|flying[0]|, bufsz), |flying[0]|)
    ensures Good(bufsz, Rx(mem, u, flying[1..], sent, taken))
  {
    hide Good, Marks, Need, LastLen, NextAt;
    AcceptKeeps(bufsz, Rx(mem, w, flying, sent, taken), u.bufs);
  }

  // ----- runs -----

  /** What may happen next; `careful` runs recycle no buffer away from home. */
  ghost predicate Enabled(bufsz: nat, careful: bool, s: Rx, e: Event)
    requires bufsz > 0
  {
    && s.w.base < |s.w.bufs| && s.w.lag + s.w.cnt < |s.w.bufs|
    && match e
       case Land(p) =>
         && LandAt(s.w, s.flying, bufsz) < |s.w.bufs| && Laid(s.w.bufs, bufsz, |s.mem|)
         && NeedAll(Lens(s.flying), bufsz) + Need(|p|, bufsz) <= s.w.avail
       case Accept(marked) =>
         && s.flying != [] && s.w.lag == 0 && Need(|s.flying[0]|, bufsz) <= s.w.avail
         && Marks(s.w.bufs, marked, NextAt(s.w), Need(|s.flying[0]|, bufsz), LastLen(|s.flying[0]|, bufsz))
       case Read(i, foff) =>
         && CanDrain(s.w, i, foff) && Taken(s.mem, s.w, i, foff) <= s.w.pktDlen == |Pending(s.mem, s.w)|
       case Recycle(refilled) =>
         && Refilled(s.w.bufs, refilled, s.w.base, s.w.lag, bufsz)
         && (careful ==> DrainedAtHome(s.w.bufs, s.w.base, s.w.lag))
  }

  function Do(bufsz: nat, s: Rx, e: Event): Rx
    requires bufsz > 0 && Enabled(bufsz, false, s, e)
  {
    match e
    case Land(p) => s.(mem := Dma(s.mem, s.w.bufs, LandAt(s.w, s.flying, bufsz), p, bufsz),
                       flying := s.flying + [p], sent := s.sent + p)
    case Accept(marked) => s.(w := Receive(s.w, marked, Need(|s.flying[0]|, bufsz), |s.flying[0]|),
                              flying := s.flying[1..])
    case Read(i, foff) => s.(w := Drain(s.mem, s.w, i, foff),
                             taken := s.taken + Pending(s.mem, s.w)[..Taken(s.mem, s.w, i, foff)])
    case Recycle(refilled) => s.(w := Refill(s.w, refilled))
  }

  lemma AlsoCareless(bufsz: nat, careful: bool, s: Rx, e: Event)
    requires bufsz > 0 && Enabled(bufsz, careful, s, e)
    ensures Enabled(bufsz, false, s, e)
  {
  }

  ghost predicate Path(bufsz: nat, careful: bool, s: Rx, es: seq<Event>, t: Rx)
    requires bufsz > 0
    decreases |es|
  {
    if es == [] then s == t
    else Enabled(bufsz, careful, s, es[0]) && Path(bufsz, careful, Do(bufsz, s, es[0]), es[1..], t)
  }

  lemma DoKeeps(bufsz: nat, s: Rx, e: Event)
    requires Good(bufsz, s) && Enabled(bufsz, true, s, e)
    ensures Good(bufsz, Do(bufsz, s, e)) && s.taken <= Do(bufsz, s, e).taken && s.sent <= Do(bufsz, s, e).sent
  {
    hide Good, CanDrain, Taken, Pending, Laid, Marks, Refilled, DrainedAtHome, Need, NeedAll, LastLen, LandAt, NextAt,
      Dma, Drain, Receive, Refill;
    match e
    case Land(p) => LandKeeps(bufsz, s, p);
    case Accept(marked) => AcceptKeeps(bufsz, s, marked);
    case Read(i, foff) => ReadKeeps(bufsz, s, i, foff);
    case Recycle(refilled) => RecycleKeeps(bufsz, s, refilled);
  }

  /** Over every careful run, whatever the interleaving, the bytes handed to readers are a prefix
      of the bytes sent, and what is missing is unread or in flight. */
  lemma {:induction false} RunsDeliver(bufsz: nat, s: Rx, es: seq<Event>, t: Rx)
    requires Good(bufsz, s) && Path(bufsz, true, s, es, t)
    ensures Good(bufsz, t) && s.taken <= t.taken <= t.sent
    ensures t.sent == t.taken + Pending(t.mem, t.w) + Joined(t.flying)
    decreases |es|
  {
    hide Enabled, Do, Inv, Laid, Homed, NeedAll, Lens, Pending, StreamBytes, Joined;
    if es != [] {
      AlsoCareless(bufsz, true, s, es[0]);
      DoKeeps(bufsz, s, es[0]);
      RunsDeliver(bufsz, Do(bufsz, s, es[0]), es[1..], t);
    }
  }

  /** A queue as it is started: every slot but one with the device, nothing written yet. */
  function Started(mem: seq<Byte>, homes: seq<nat>, bufsz: nat): Rx
    requires homes != []
  {
    Rx(mem, Win(FreshBufs(homes, bufsz), 0, 0, 0, |homes| - 1, 0), [], [], [])
  }

  /** It is in good order. */
  lemma StartsGood(bufsz: nat, mem: seq<Byte>, homes: seq<nat>)
    requires bufsz > 0 && homes != []
    requires Laid(FreshBufs(homes, bufsz), bufsz, |mem|)
    ensures Good(bufsz, Started(mem, homes, bufsz))
  {
    hide Laid;
  }

  // ----- drift -----

  /** In any run, careful or not, the address that a buffer is read from never comes back down:
      once a buffer has left home it is away for good. */
  lemma {:induction false} NeverHomeAgain(bufsz: nat, careful: bool, s: Rx, es: seq<Event>, t: Rx, slot: nat)
    requires bufsz > 0 && Path(bufsz, careful, s, es, t) && slot < |s.w.bufs|
    ensures |t.w.bufs| == |s.w.bufs| && t.w.bufs[slot].home == s.w.bufs[slot].home
    ensures t.w.bufs[slot].addr >= s.w.bufs[slot].addr
    decreases |es|
  {
    hide Enabled, Do;
    if es != [] {
      AlsoCareless(bufsz, careful, s, es[0]);
      DoKeepsHomes(bufsz, s, es[0], slot);
      NeverHomeAgain(bufsz, careful, Do(bufsz, s, es[0]), es[1..], t, slot);
    }
  }

  lemma DoKeepsHomes(bufsz: nat, s: Rx, e: Event, slot: nat)
    requires bufsz > 0 && Enabled(bufsz, false, s, e) && slot < |s.w.bufs|
    ensures var b, t := s.w.bufs, Do(bufsz, s, e).w.bufs;
            |t| == |b| && t[slot].home == b[slot].home && t[slot].addr >= b[slot].addr
  {
    hide Laid, NeedAll, Need, LastLen, Dma, Taken, Pending;
    var n := |s.w.bufs|;
    match e
    case Land(p) =>
    case Accept(marked) =>
      var at := NextAt(s.w);
      assert slot == RingIdxIncr(at, if slot >= at then slot - at else slot + n - at, n);
    case Read(i, foff) =>
    case Recycle(refilled) =>
      var at := s.w.base;
      assert slot == RingIdxIncr(at, if slot >= at then slot - at else slot + n - at, n);
  }

  /** A read leaves every buffer at home if and only if it ends between two buffers. */
  lemma ReadStaysHomeIff(bufsz: nat, s: Rx, i: nat, foff: nat)
    requires bufsz > 0 && Enabled(bufsz, false, s, Read(i, foff))
    requires forall slot :: 0 <= slot < |s.w.bufs| ==> AtHome(s.w.bufs[slot])
    ensures (forall slot :: 0 <= slot < |s.w.bufs| ==> AtHome(Do(bufsz, s, Read(i, foff)).w.bufs[slot])) <==> foff == 0
  {
    hide Taken, Pending;
    if foff > 0 {
      var slot := RingIdxIncr(s.w.base, s.w.lag + i, |s.w.bufs|);
      assert !AtHome(Do(bufsz, s, Read(i, foff)).w.bufs[slot]);
    }
  }
}
