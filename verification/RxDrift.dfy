/** The converse of `RunsDeliver`: once a buffer that has left home is recycled, the run can be
    continued to a state in which a reader was given bytes that nobody sent. */
module RxDrift {
  import opened Ring
  import opened RxModel
  import opened RxSteps
  import opened RxPackets
  import opened RxExact
  import opened RxRuns

  // ----- running forward -----

  lemma {:induction false} PathJoin(bufsz: nat, s: Rx, es: seq<Event>, t: Rx, fs: seq<Event>, u: Rx)
    requires bufsz > 0 && Path(bufsz, false, s, es, t) && Path(bufsz, false, t, fs, u)
    ensures Path(bufsz, false, s, es + fs, u)
    decreases |es|
  {
    hide Enabled, Do;
    if es == [] {
      assert es + fs == fs;
    } else {
      PathJoin(bufsz, Do(bufsz, s, es[0]), es[1..], t, fs, u);
      assert (es + fs)[0] == es[0] && (es + fs)[1..] == es[1..] + fs;
    }
  }

  lemma PathStep(bufsz: nat, s: Rx, e: Event, es: seq<Event>, t: Rx)
    requires bufsz > 0 && Enabled(bufsz, false, s, e) && Path(bufsz, false, Do(bufsz, s, e), es, t)
    ensures Path(bufsz, false, s, [e] + es, t)
  {
    hide Enabled, Do;
    assert ([e] + es)[0] == e && ([e] + es)[1..] == es;
  }

  function MarkBufs(bufs: seq<Buf>, at: nat, fl: nat, last: nat): seq<Buf>
    requires at < |bufs|
  {
    seq(|bufs|, s requires 0 <= s < |bufs| =>
      var d := RingIdxDelta(s, at, |bufs|);
      if d < fl then bufs[s].(valid := true, len := if d == fl - 1 then last else bufs[s].len) else bufs[s])
  }

  lemma MarkBufsMarks(bufs: seq<Buf>, at: nat, fl: nat, last: nat)
    requires at < |bufs| && 0 < fl < |bufs|
    ensures Marks(bufs, MarkBufs(bufs, at, fl, last), at, fl, last)
  {
  }

  function RefillBufs(bufs: seq<Buf>, at: nat, count: nat, bufsz: nat): seq<Buf>
    requires at < |bufs|
  {
    seq(|bufs|, s requires 0 <= s < |bufs| =>
      if RingIdxDelta(s, at, |bufs|) < count then Recycled(bufs[s], bufsz) else bufs[s])
  }

  lemma RefillBufsRefilled(bufs: seq<Buf>, at: nat, count: nat, bufsz: nat)
    requires at < |bufs| && count < |bufs|
    ensures Refilled(bufs, RefillBufs(bufs, at, count, bufsz), at, count, bufsz)
  {
  }

  // ----- emptying the ring -----

  /** Slot `d` is read from somewhere else than the device writes. */
  ghost predicate Away(s: Rx, d: nat) {
    d < |s.w.bufs| && s.w.bufs[d].addr != s.w.bufs[d].home
  }

  /** Homes and read addresses are the same in both states. */
  ghost predicate SameSeats(s: Rx, t: Rx) {
    && |t.w.bufs| == |s.w.bufs|
    && forall k :: 0 <= k < |s.w.bufs| ==> t.w.bufs[k].addr == s.w.bufs[k].addr && t.w.bufs[k].home == s.w.bufs[k].home
  }

  ghost predicate Empty(s: Rx) {
    s.flying == [] && s.w.lag == 0 && s.w.cnt == 0
  }

  lemma AcceptOne(bufsz: nat, s: Rx) returns (e: Event)
    requires Delivering(bufsz, s) && s.flying != [] && s.w.lag == 0
    ensures e.Accept? && Enabled(bufsz, false, s, e)
    ensures var t := Do(bufsz, s, e);
            && Delivering(bufsz, t) && SameSeats(s, t) && t.flying == s.flying[1..] && t.mem == s.mem
            && t.w.lag == 0 && t.w.base == s.w.base && t.w.cnt == s.w.cnt + Need(|s.flying[0]|, bufsz)
            && t.taken == s.taken && t.sent == s.sent
  {
    hide Inv, Pending, NeedAll, Need, LastLen, StreamBytes, PacketBytes, Laid, Lens, Joined;
    var w := s.w;
    InvShape(bufsz, s.mem, w);
    var fl, last := Need(|s.flying[0]|, bufsz), LastLen(|s.flying[0]|, bufsz);
    FirstFlying(bufsz, s.mem, w.bufs, NextAt(w), s.flying);
    NeedPositive(|s.flying[0]|, bufsz);
    e := Accept(MarkBufs(w.bufs, NextAt(w), fl, last));
    MarkBufsMarks(w.bufs, NextAt(w), fl, last);
    hide Marks;
    AcceptDelivers(bufsz, s, e.marked);
  }

  lemma NeedPositive(len: nat, bufsz: nat)
    requires bufsz > 0
    ensures Need(len, bufsz) > 0
  {
  }

  lemma {:induction false} AcceptAll(bufsz: nat, s: Rx, d: nat) returns (es: seq<Event>, t: Rx)
    requires bufsz > 0 && Delivering(bufsz, s) && s.w.lag == 0 && Away(s, d)
    ensures Path(bufsz, false, s, es, t) && Delivering(bufsz, t) && t.w.lag == 0 && t.flying == [] && Away(t, d)
    ensures |t.w.bufs| == |s.w.bufs|
    decreases |s.flying|
  {
    hide Delivering, Enabled, Do;
    if s.flying == [] {
      es, t := [], s;
    } else {
      var e := AcceptOne(bufsz, s);
      es, t := AcceptAll(bufsz, Do(bufsz, s, e), d);
      PathStep(bufsz, s, e, es, t);
      es := [e] + es;
    }
  }

  /** Reading everything. */
  lemma ReadAll(bufsz: nat, s: Rx)
    requires Delivering(bufsz, s) && s.w.lag == 0
    ensures Enabled(bufsz, false, s, Read(s.w.cnt, 0))
    ensures var t := Do(bufsz, s, Read(s.w.cnt, 0));
            && Delivering(bufsz, t) && t.w.cnt == 0 && t.w.lag == s.w.cnt && t.w.base == s.w.base &&
               t.w.bufs == s.w.bufs
            && t.flying == s.flying && t.mem == s.mem && t.sent == s.sent && t.taken == s.taken + Pending(s.mem, s.w)
  {
    hide Pending, NeedAll, StreamBytes, Laid, Lens, Joined;
    InvShape(bufsz, s.mem, s.w);
    ReadDelivers(bufsz, s, s.w.cnt, 0);
    ReadDeliversAll(s.mem, s.w);
    hide Inv;
  }

  lemma ReadDeliversAll(mem: seq<Byte>, w: Win)
    requires w.base < |w.bufs| && w.lag + w.cnt < |w.bufs|
    ensures Taken(mem, w, w.cnt, 0) == |Pending(mem, w)|
  {
  }

  lemma RecycleAll(bufsz: nat, s: Rx) returns (e: Event)
    requires Delivering(bufsz, s)
    ensures e.Recycle? && Enabled(bufsz, false, s, e)
    ensures var t := Do(bufsz, s, e);
            && Delivering(bufsz, t) && SameSeats(s, t) && t.flying == s.flying
            && t.w.lag == 0 && t.w.cnt == s.w.cnt && t.w.base == RingIdxIncr(s.w.base, s.w.lag, |s.w.bufs|) < |s.w.bufs|
            && t.taken == s.taken && t.sent == s.sent
  {
    hide Inv, Pending, NeedAll, Need, StreamBytes, Laid, Lens, Joined, Refilled;
    InvShape(bufsz, s.mem, s.w);
    e := Recycle(RefillBufs(s.w.bufs, s.w.base, s.w.lag, bufsz));
    RefillBufsRefilled(s.w.bufs, s.w.base, s.w.lag, bufsz);
    RecycleDelivers(bufsz, s, e.refilled);
  }

  lemma EmptyOut(bufsz: nat, s: Rx, d: nat) returns (es: seq<Event>, t: Rx)
    requires bufsz > 0 && Delivering(bufsz, s) && s.w.lag == 0 && Away(s, d)
    ensures Path(bufsz, false, s, es, t) && Delivering(bufsz, t) && Empty(t) && Away(t, d)
    ensures |t.w.bufs| == |s.w.bufs| && t.w.base < |t.w.bufs|
  {
    hide Delivering, Enabled, Do;
    var u;
    es, u := AcceptAll(bufsz, s, d);
    ReadAll(bufsz, u);
    var v := Do(bufsz, u, Read(u.w.cnt, 0));
    var e := RecycleAll(bufsz, v);
    t := Do(bufsz, v, e);
    PathStep(bufsz, v, e, [], t);
    PathStep(bufsz, u, Read(u.w.cnt, 0), [e] + [], t);
    PathJoin(bufsz, s, es, u, [Read(u.w.cnt, 0)] + ([e] + []), t);
    es := es + ([Read(u.w.cnt, 0)] + ([e] + []));
  }

  // ----- walking the ring -----

  /** With nothing unread and nothing in flight a one-byte packet lands in the first buffer. */
  lemma LandOne(bufsz: nat, s: Rx, p: seq<Byte>)
    requires Delivering(bufsz, s) && Empty(s) && |s.w.bufs| > 1 && |p| == 1
    ensures Enabled(bufsz, false, s, Land(p))
    ensures var t := Do(bufsz, s, Land(p));
            && t.w == s.w && t.flying == [p] && t.sent == s.sent + p && t.taken == s.taken == s.sent
            && Inv(bufsz, t.mem, t.w) && Laid(t.w.bufs, bufsz, |t.mem|)
            && t.mem == Dma(s.mem, s.w.bufs, s.w.base, p, bufsz)
  {
    hide Laid, Dma;
    assert Lens(s.flying) == [] && Joined(s.flying) == [];
    assert RingIdxIncr(s.w.base, 0, |s.w.bufs|) == s.w.base;
    assert Lens([p])[1..] == [];
  }

  lemma OneByte(bufsz: nat, mem: seq<Byte>, bufs: seq<Buf>, at: nat, len: nat)
    requires bufsz > 0 && at < |bufs| && len == 1
    ensures Need(len, bufsz) == 1 && LastLen(len, bufsz) == 1 && NeedAll([len], bufsz) == 1
    ensures |bufs| > 1 ==> StreamBytes(mem, bufs, at, [len], bufsz) == PacketBytes(mem, bufs, at, len, bufsz)
  {
    assert NeedAll([len][1..], bufsz) == 0;
  }

  /** If that buffer is at home, the byte is delivered and the next buffer comes first. */
  lemma PassOne(bufsz: nat, s: Rx, d: nat) returns (es: seq<Event>, t: Rx)
    requires bufsz > 0 && Delivering(bufsz, s) && Empty(s) && Away(s, d) && s.w.base != d && |s.w.bufs| > 1
    requires AtHome(s.w.bufs[s.w.base])
    ensures Path(bufsz, false, s, es, t) && Delivering(bufsz, t) && Empty(t) && Away(t, d)
    ensures |t.w.bufs| == |s.w.bufs| && t.w.base == RingIdxIncr(s.w.base, 1, |s.w.bufs|)
  {
    hide Enabled, Do, Inv, Laid, Dma, StreamBytes, PacketBytes, Need, NeedAll, LastLen;
    InvShape(bufsz, s.mem, s.w);
    var p := [0];
    LandOne(bufsz, s, p);
    var a := Do(bufsz, s, Land(p));
    LandDelivers(bufsz, s, p);
    OneByte(bufsz, a.mem, a.w.bufs, a.w.base, |p|);
    var accept := AcceptOne(bufsz, a);
    var b := Do(bufsz, a, accept);
    ReadAll(bufsz, b);
    var c := Do(bufsz, b, Read(b.w.cnt, 0));
    var recycle := RecycleAll(bufsz, c);
    t := Do(bufsz, c, recycle);
    hide Delivering;
    PathStep(bufsz, c, recycle, [], t);
    PathStep(bufsz, b, Read(b.w.cnt, 0), [recycle] + [], t);
    PathStep(bufsz, a, accept, [Read(b.w.cnt, 0)] + ([recycle] + []), t);
    PathStep(bufsz, s, Land(p), [accept] + ([Read(b.w.cnt, 0)] + ([recycle] + [])), t);
    es := [Land(p)] + ([accept] + ([Read(b.w.cnt, 0)] + ([recycle] + [])));
  }

  lemma LandDelivers(bufsz: nat, s: Rx, p: seq<Byte>)
    requires Delivering(bufsz, s) && Empty(s) && |s.w.bufs| > 1 && |p| == 1
    requires s.w.base < |s.w.bufs| && AtHome(s.w.bufs[s.w.base])
    ensures Enabled(bufsz, false, s, Land(p)) && Delivering(bufsz, Do(bufsz, s, Land(p)))
  {
    LandOne(bufsz, s, p);
    var t := Do(bufsz, s, Land(p));
    hide Enabled, Do, Laid, Dma, PacketBytes, Inv;
    InvShape(bufsz, s.mem, s.w);
    OneByte(bufsz, t.mem, t.w.bufs, t.w.base, |p|);
    assert RingIdxIncr(s.w.base, 0, |s.w.bufs|) == s.w.base;
    ReadsBack(s.mem, s.w.bufs, s.w.base, p, bufsz);
    assert Lens([p]) == [1] && Joined([p]) == p;
  }

  /** Accepting a one-byte packet, whatever it is read as. */
  lemma AcceptBlind(bufsz: nat, s: Rx) returns (e: Event)
    requires bufsz > 0 && Inv(bufsz, s.mem, s.w) && s.w.lag == 0 && s.w.cnt == 0 && |s.flying| == 1 &&
             |s.flying[0]| == 1
    requires |s.w.bufs| > 1
    ensures e.Accept? && Enabled(bufsz, false, s, e)
    ensures var t := Do(bufsz, s, e);
            && Inv(bufsz, t.mem, t.w) && t.w.lag == 0 && t.w.cnt == 1 && t.taken == s.taken && t.sent == s.sent
            && Pending(t.mem, t.w) == PacketBytes(s.mem, s.w.bufs, s.w.base, 1, bufsz)
  {
    hide Gather, PacketBytes;
    var w := s.w;
    OneByte(bufsz, s.mem, w.bufs, w.base, 1);
    assert RingIdxIncr(w.base, 0, |w.bufs|) == w.base;
    e := Accept(MarkBufs(w.bufs, w.base, 1, 1));
    MarkBufsMarks(w.bufs, w.base, 1, 1);
    hide Inv, Marks, MarkBufs, Need, LastLen, Pending;
    InvShape(bufsz, s.mem, w);
    NothingPending(s.mem, w);
    ReceivePacket(bufsz, s.mem, w, e.marked, 1);
  }

  lemma NothingPending(mem: seq<Byte>, w: Win)
    requires w.base < |w.bufs| && w.lag == w.cnt == 0
    ensures Pending(mem, w) == []
  {
  }

  lemma ReadBlind(bufsz: nat, s: Rx)
    requires bufsz > 0 && Inv(bufsz, s.mem, s.w) && s.w.lag == 0
    ensures Enabled(bufsz, false, s, Read(s.w.cnt, 0))
    ensures var t := Do(bufsz, s, Read(s.w.cnt, 0)); t.taken == s.taken + Pending(s.mem, s.w) && t.sent == s.sent
  {
    hide Inv, Gather;
    InvShape(bufsz, s.mem, s.w);
    ReadDeliversAll(s.mem, s.w);
  }

  /** If the first buffer is away from home, there is a byte that is handed out wrongly. */
  lemma MisreadOne(bufsz: nat, s: Rx) returns (es: seq<Event>, t: Rx)
    requires bufsz > 0 && Delivering(bufsz, s) && Empty(s) && |s.w.bufs| > 1 && Away(s, s.w.base)
    ensures Path(bufsz, false, s, es, t) && !(t.taken <= t.sent)
  {
    hide Enabled, Do, Inv, Laid, Dma, PacketBytes, Need, NeedAll, StreamBytes;
    InvShape(bufsz, s.mem, s.w);
    var odd: Byte := if Peek(s.mem, s.w.bufs[s.w.base].addr) == 0 then 1 else 0;
    var p := [odd];
    LandOne(bufsz, s, p);
    var a := Do(bufsz, s, Land(p));
    OddFirstByte(s.mem, s.w.bufs, s.w.base, p, bufsz, 1 - odd);
    var accept := AcceptBlind(bufsz, a);
    var b := Do(bufsz, a, accept);
    ReadBlind(bufsz, b);
    t := Do(bufsz, b, Read(b.w.cnt, 0));
    hide Delivering, Away;
    WrongByte(s.taken, p, PacketBytes(a.mem, a.w.bufs, a.w.base, 1, bufsz));
    PathStep(bufsz, b, Read(b.w.cnt, 0), [], t);
    PathStep(bufsz, a, accept, [Read(b.w.cnt, 0)] + [], t);
    PathStep(bufsz, s, Land(p), [accept] + ([Read(b.w.cnt, 0)] + []), t);
    es := [Land(p)] + ([accept] + ([Read(b.w.cnt, 0)] + []));
  }

  lemma WrongByte(before: seq<Byte>, p: seq<Byte>, x: seq<Byte>)
    requires |p| == |x| == 1 && x != p
    ensures !(before + x <= before + p)
  {
    assert (before + x)[|before|] == x[0] && (before + p)[|before|] == p[0];
  }

  /** From an empty ring the run goes round until it meets a buffer that is away from home. */
  lemma {:induction false} WalkTo(bufsz: nat, s: Rx, d: nat) returns (es: seq<Event>, t: Rx)
    requires bufsz > 0 && Delivering(bufsz, s) && Empty(s) && |s.w.bufs| > 1 && Away(s, d) && s.w.base < |s.w.bufs|
    ensures Path(bufsz, false, s, es, t) && !(t.taken <= t.sent)
    decreases RingIdxDelta(d, s.w.base, |s.w.bufs|)
  {
    hide Delivering, Path;
    if s.w.bufs[s.w.base].addr != s.w.bufs[s.w.base].home {
      es, t := MisreadOne(bufsz, s);
    } else {
      var fs, u := PassOne(bufsz, s, d);
      var gs;
      gs, t := WalkTo(bufsz, u, d);
      PathJoin(bufsz, s, fs, u, gs, t);
      es := fs + gs;
    }
  }

  /** A recycled buffer that is not at home spoils the run: it can be continued so that readers
      are given something else than what was sent. */
  lemma CarelessMisdelivers(bufsz: nat, s: Rx, refilled: seq<Buf>) returns (es: seq<Event>, t: Rx)
    requires Good(bufsz, s) && Refilled(s.w.bufs, refilled, s.w.base, s.w.lag, bufsz)
    requires !DrainedAtHome(s.w.bufs, s.w.base, s.w.lag)
    ensures bufsz > 0 && Path(bufsz, false, s, [Recycle(refilled)] + es, t) && !(t.taken <= t.sent)
  {
    InvShape(bufsz, s.mem, s.w);
    var k :| 0 <= k < s.w.lag && !AtHome(s.w.bufs[RingIdxIncr(s.w.base, k, |s.w.bufs|)]);
    var d := RingIdxIncr(s.w.base, k, |s.w.bufs|);
    RefilledKeepsLaid(s.w.bufs, refilled, s.w.base, s.w.lag, bufsz, |s.mem|);
    RecycleDelivers(bufsz, s, refilled);
    var u := Do(bufsz, s, Recycle(refilled));
    assert RingIdxIncr(s.w.base, k, |s.w.bufs|) == d && refilled[d] == Recycled(s.w.bufs[d], bufsz);
    es, t := FromAway(bufsz, u, d);
    PathStep(bufsz, s, Recycle(refilled), es, t);
  }

  lemma FromAway(bufsz: nat, s: Rx, d: nat) returns (es: seq<Event>, t: Rx)
    requires bufsz > 0 && Delivering(bufsz, s) && s.w.lag == 0 && |s.w.bufs| > 1 && Away(s, d)
    ensures Path(bufsz, false, s, es, t) && !(t.taken <= t.sent)
  {
    hide Delivering, Path;
    var fs, u := EmptyOut(bufsz, s, d);
    var gs;
    gs, t := WalkTo(bufsz, u, d);
    PathJoin(bufsz, s, fs, u, gs, t);
    es := fs + gs;
  }

  /** A packet of two bytes, read in two halves, and its buffer recycled. */
  lemma HalfRead(bufsz: nat, s: Rx) returns (es: seq<Event>, t: Rx)
    requires bufsz > 1 && Good(bufsz, s) && Empty(s) && |s.w.bufs| > 1 && s.w.base < |s.w.bufs|
    ensures Path(bufsz, false, s, es, t) && Delivering(bufsz, t) && t.w.lag == 0 && Away(t, s.w.base)
    ensures |t.w.bufs| == |s.w.bufs|
  {
    hide Inv, Laid, Dma, PacketBytes, NeedAll, StreamBytes, Homed, Path;
    var p := [0, 0];
    LandTwo(bufsz, s, p);
    var a := Do(bufsz, s, Land(p));
    var accept := AcceptOne(bufsz, a);
    var b := Do(bufsz, a, accept);
    var c := HalfOf(bufsz, b);
    ReadAll(bufsz, c);
    var d := Do(bufsz, c, Read(c.w.cnt, 0));
    var recycle := RecycleAll(bufsz, d);
    t := Do(bufsz, d, recycle);
    hide Delivering, Good, Enabled, Do;
    PathDone(bufsz, t);
    PathStep(bufsz, d, recycle, [], t);
    PathStep(bufsz, c, Read(c.w.cnt, 0), [recycle] + [], t);
    PathStep(bufsz, b, Read(0, 1), [Read(c.w.cnt, 0)] + ([recycle] + []), t);
    PathStep(bufsz, a, accept, [Read(0, 1)] + ([Read(c.w.cnt, 0)] + ([recycle] + [])), t);
    PathStep(bufsz, s, Land(p), [accept] + ([Read(0, 1)] + ([Read(c.w.cnt, 0)] + ([recycle] + []))), t);
    es := [Land(p)] + ([accept] + ([Read(0, 1)] + ([Read(c.w.cnt, 0)] + ([recycle] + []))));
  }

  lemma PathDone(bufsz: nat, t: Rx)
    requires bufsz > 0
    ensures Path(bufsz, false, t, [], t)
  {
  }

  lemma LandTwo(bufsz: nat, s: Rx, p: seq<Byte>)
    requires bufsz > 1 && Good(bufsz, s) && Empty(s) && |s.w.bufs| > 1 && |p| == 2
    ensures Enabled(bufsz, false, s, Land(p))
    ensures var t := Do(bufsz, s, Land(p));
            Delivering(bufsz, t) && t.w == s.w && t.flying == [p] && AtHome(t.w.bufs[t.w.base])
  {
    hide Gather, StreamBytes, PacketBytes, Dma, Laid;
    assert Need(|p|, bufsz) == 1 && Lens(s.flying) == [] && NeedAll([], bufsz) == 0;
    LandKeeps(bufsz, s, p);
    assert RingIdxIncr(s.w.base, 0, |s.w.bufs|) == s.w.base;
  }

  /** Reading one byte of the first buffer moves its address. */
  lemma HalfOf(bufsz: nat, s: Rx) returns (t: Rx)
    requires Delivering(bufsz, s) && s.w.lag == 0 && s.w.cnt == 1 && s.w.base < |s.w.bufs|
    requires AtHome(s.w.bufs[s.w.base]) && s.w.bufs[s.w.base].len >= 1
    ensures Enabled(bufsz, false, s, Read(0, 1)) && t == Do(bufsz, s, Read(0, 1))
    ensures Delivering(bufsz, t) && t.w.lag == 0 && t.w.cnt == 1 && |t.w.bufs| == |s.w.bufs| && Away(t, s.w.base)
  {
    hide Inv, Laid, NeedAll, StreamBytes, Gather;
    InvShape(bufsz, s.mem, s.w);
    assert RingIdxIncr(s.w.base, 0, |s.w.bufs|) == s.w.base;
    ReadDelivers(bufsz, s, 0, 1);
    t := Do(bufsz, s, Read(0, 1));
  }

  // ----- from the start -----

  /** Two packets: the first is read in two halves and its buffer recycled. Every started queue
      with buffers of at least two bytes has a run that goes wrong. */
  lemma EveryQueueCanMisdeliver(bufsz: nat, mem: seq<Byte>, homes: seq<nat>) returns (es: seq<Event>, t: Rx)
    requires bufsz > 1 && |homes| > 1 && Laid(FreshBufs(homes, bufsz), bufsz, |mem|)
    ensures Path(bufsz, false, Started(mem, homes, bufsz), es, t) && !(t.taken <= t.sent)
  {
    hide Path, Laid, Enabled, Do, Delivering;
    var s := Started(mem, homes, bufsz);
    StartsGood(bufsz, mem, homes);
    var fs, u := HalfRead(bufsz, s);
    var gs;
    gs, t := FromAway(bufsz, u, 0);
    PathJoin(bufsz, s, fs, u, gs, t);
    es := fs + gs;
  }
}
