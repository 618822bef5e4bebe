/** Values and invariants of the descriptor-ring transmit engine: memory-mapped queues in
    both directions and streaming host-to-card queues.

    `Tx` is the queue as seen while its lock is held, together with what the run has done
    so far: every descriptor ever issued (`log`), where each fully issued request ends in
    that log (`ends`), every request ever submitted and every completion callback made.
    Positions in `log` count descriptors absolutely, so `consumed`, `device`, `posted` and
    `soft` are directly comparable, while the ring only knows them modulo its size. */
module TxModel {
  import opened Bits
  import opened Ring
  import opened ScatterGather

  const PAGE_SIZE := 4096
  const QDMA_DESC_BLEN_MAX := 0x1000_0000 - 1
  const U32 := 0x1_0000_0000

  /** The part of the queue configuration that the issue loops read. */
  datatype Conf = Conf(rngsz: nat, st: bool, c2h: bool, apertureSize: nat, poll: bool, descBypass: bool)

  ghost predicate ConfOk(c: Conf) {
    c.rngsz > 0 && (c.apertureSize > 0 ==> IsPow2(c.apertureSize)) && (c.st ==> !c.c2h)
  }

  datatype Request = Request(id: nat, sgl: seq<Seg>, count: nat, epAddr: nat)

  /** What callers owe the engine: entries sum to `count` and are positive; a request for
      no bytes has one empty entry. */
  ghost predicate WellFormed(r: Request) {
    && Total(r.sgl) == r.count
    && |r.sgl| > 0
    && (Positive(r.sgl) || (|r.sgl| == 1 && r.count == 0))
  }

  /** `struct qdma_sgt_req_cb`: a request with its progress. */
  datatype Cb = Cb(req: Request, descNr: nat, offset: nat)

  /** The `fp_done` callback. */
  datatype Completion = Completion(req: Request, bytes: nat, error: int)

  datatype Desc =
    | MmDesc(src: nat, dst: nat, len: nat, sop: bool, eop: bool)
    | H2cDesc(src: nat, len: nat, pldLen: nat, zeroCdh: bool, sop: bool, eop: bool)

  // ----- what descriptors mean -----

  /** One byte moved by the device: host address and endpoint address (0 for a stream). */
  datatype Move = Move(host: nat, ep: nat)

  function HostSide(c: Conf, d: Desc): nat {
    match d
    case MmDesc(src, dst, _, _, _) => if c.c2h then dst else src
    case H2cDesc(src, _, _, _, _, _) => src
  }

  function EpSide(c: Conf, d: Desc, k: nat): nat {
    match d
    case MmDesc(src, dst, _, _, _) => (if c.c2h then src else dst) + k
    case H2cDesc(_, _, _, _, _, _) => 0
  }

  function DescMoves(c: Conf, d: Desc): seq<Move> {
    seq(d.len, k requires 0 <= k => Move(HostSide(c, d) + k, EpSide(c, d, k)))
  }

  function Moves(c: Conf, ds: seq<Desc>): seq<Move> {
    if ds == [] then [] else Moves(c, ds[..|ds| - 1]) + DescMoves(c, ds[|ds| - 1])
  }

  /** Endpoint address that byte `k` of a request must meet. */
  function EpAt(c: Conf, r: Request, k: nat): nat {
    if c.st then 0
    else if c.apertureSize > 0 then r.epAddr + k % c.apertureSize
    else r.epAddr + k
  }

  /** The bytes `from`..`to` of a request, as the caller asked for them. */
  function Wanted(c: Conf, r: Request, from: nat, to: nat): seq<Move>
    requires from <= to <= Total(r.sgl)
  {
    seq(to - from, k requires 0 <= k < to - from => Move(HostAt(r.sgl, from + k), EpAt(c, r, from + k)))
  }

  lemma MovesAppend(c: Conf, ds: seq<Desc>, d: Desc)
    ensures Moves(c, ds + [d]) == Moves(c, ds) + DescMoves(c, d)
  {
    assert (ds + [d])[..|ds|] == ds;
  }

  lemma {:induction false} MovesConcat(c: Conf, a: seq<Desc>, b: seq<Desc>)
    ensures Moves(c, a + b) == Moves(c, a) + Moves(c, b)
  {
    if b == [] {
      assert a + b == a;
    } else {
      var n := |b| - 1;
      assert a + b == (a + b[..n]) + [b[n]];
      MovesAppend(c, a + b[..n], b[n]);
      MovesConcat(c, a, b[..n]);
      MovesAppend(c, b[..n], b[n]);
      assert b[..n] + [b[n]] == b;
    }
  }

  /** Start- and end-of-packet marks do not change what is moved. */
  ghost predicate SameMoves(a: Desc, b: Desc) {
    b == a.(sop := b.sop, eop := b.eop)
  }

  lemma {:induction false} MovesIgnoreMarks(c: Conf, a: seq<Desc>, b: seq<Desc>)
    requires |a| == |b| && forall k :: 0 <= k < |a| ==> SameMoves(a[k], b[k])
    ensures Moves(c, a) == Moves(c, b)
  {
    if a != [] {
      var n := |a| - 1;
      MovesIgnoreMarks(c, a[..n], b[..n]);
      assert SameMoves(a[n], b[n]);
      assert DescMoves(c, a[n]) == DescMoves(c, b[n]);
    }
  }

  lemma WantedExtend(c: Conf, r: Request, from: nat, mid: nat, to: nat)
    requires from <= mid <= to <= Total(r.sgl)
    ensures Wanted(c, r, from, mid) + Wanted(c, r, mid, to) == Wanted(c, r, from, to)
  {
  }

  lemma ModRun(pos: nat, k: nat, a: nat)
    requires a > 0 && pos % a + k < a
    ensures (pos + k) % a == pos % a + k
  {
    ModUnique(pos + k, pos / a, pos % a + k, a);
  }

  lemma ModWrap(pos: nat, k: nat, a: nat)
    requires a > 0 && pos % a + k == a
    ensures (pos + k) % a == 0
  {
    assert (pos / a + 1) * a == (pos / a) * a + a;
    ModUnique(pos + k, pos / a + 1, 0, a);
  }

  /** Byte `k` of descriptor `d` meets the endpoint address of byte `pos + k` of the request. */
  ghost predicate EpMeets(c: Conf, r: Request, d: Desc, pos: nat, k: nat) {
    EpSide(c, d, k) == EpAt(c, r, pos + k)
  }

  /** A descriptor that starts at byte `o` of entry `i`, stays inside the entry and meets the
      right endpoint addresses moves exactly the next bytes of the request. */
  lemma DescCovers(c: Conf, r: Request, d: Desc, i: nat, o: nat, pos: nat)
    requires i < |r.sgl| && o + d.len <= r.sgl[i].len && pos == Prefix(r.sgl, i) + o
    requires HostSide(c, d) == r.sgl[i].addr + o
    requires forall k :: 0 <= k < d.len ==> EpMeets(c, r, d, pos, k)
    ensures pos + d.len <= Total(r.sgl)
    ensures DescMoves(c, d) == Wanted(c, r, pos, pos + d.len)
  {
    PrefixMonotone(r.sgl, i + 1, |r.sgl|);
    var moves, wanted := DescMoves(c, d), Wanted(c, r, pos, pos + d.len);
    forall k | 0 <= k < d.len
      ensures moves[k] == wanted[k]
    {
      assert EpMeets(c, r, d, pos, k);
      HostAtSegment(r.sgl, i, o + k);
      assert pos + k == Prefix(r.sgl, i) + (o + k);
    }
  }

  /** The endpoint cursor of the memory-mapped loop when byte `pos` is next; with a keyhole
      the cursor may still stand one past the window. */
  ghost predicate EpCursor(c: Conf, r: Request, pos: nat, epAddr: nat) {
    if c.apertureSize == 0 then epAddr == r.epAddr + pos
    else epAddr == r.epAddr + pos % c.apertureSize ||
         (pos % c.apertureSize == 0 && epAddr == r.epAddr + c.apertureSize)
  }

  lemma EpCursorStep(c: Conf, r: Request, pos: nat, epAddr: nat, len: nat)
    requires !c.st
    requires c.apertureSize == 0 ==> epAddr == r.epAddr + pos
    requires c.apertureSize > 0 ==> epAddr == r.epAddr + pos % c.apertureSize
    requires c.apertureSize > 0 ==> pos % c.apertureSize + len <= c.apertureSize
    ensures EpCursor(c, r, pos + len, epAddr + len)
  {
    if c.apertureSize > 0 {
      if pos % c.apertureSize + len < c.apertureSize {
        ModRun(pos, len, c.apertureSize);
      } else {
        ModWrap(pos, len, c.apertureSize);
      }
    }
  }

  lemma EpRun(c: Conf, r: Request, d: Desc, pos: nat)
    requires !c.st && d.MmDesc?
    requires c.apertureSize == 0 ==> EpSide(c, d, 0) == r.epAddr + pos
    requires c.apertureSize > 0 ==> EpSide(c, d, 0) == r.epAddr + pos % c.apertureSize
    requires c.apertureSize > 0 ==> pos % c.apertureSize + d.len <= c.apertureSize
    ensures forall k :: 0 <= k < d.len ==> EpMeets(c, r, d, pos, k)
  {
    forall k | 0 <= k < d.len
      ensures EpMeets(c, r, d, pos, k)
    {
      if c.apertureSize > 0 { ModRun(pos, k, c.apertureSize); }
    }
  }

  // ----- the ring -----

  /** Slots from `start` on hold `ds`. */
  ghost predicate Holds(ring: seq<Desc>, start: nat, ds: seq<Desc>) {
    && start < |ring| && |ds| <= |ring|
    && forall k :: 0 <= k < |ds| ==> ring[RingIdxIncr(start, k, |ring|)] == ds[k]
  }

  /** Writing descriptors from `start` on left every slot beyond the first `n` alone. */
  ghost predicate Beyond(before: seq<Desc>, after: seq<Desc>, start: nat, n: nat) {
    && |before| == |after| && start < |after|
    && forall k :: n <= k < |after| ==>
         after[RingIdxIncr(start, k, |after|)] == before[RingIdxIncr(start, k, |after|)]
  }

  lemma BeyondWeaken(before: seq<Desc>, after: seq<Desc>, start: nat, n: nat)
    requires Beyond(before, after, start, n)
    ensures Beyond(before, after, start, n + 1)
  {
  }

  lemma HoldsAppend(before: seq<Desc>, ring: seq<Desc>, start: nat, ds: seq<Desc>, d: Desc)
    requires Holds(ring, start, ds) && |ds| < |ring| && Beyond(before, ring, start, |ds|)
    ensures var after := ring[RingIdxIncr(start, |ds|, |ring|) := d];
            Holds(after, start, ds + [d]) && Beyond(before, after, start, |ds| + 1)
  {
  }

  lemma HoldsAt(ring: seq<Desc>, start: nat, ds: seq<Desc>, k: nat)
    requires Holds(ring, start, ds) && k < |ds|
    ensures RingIdxIncr(start, k, |ring|) < |ring| && ring[RingIdxIncr(start, k, |ring|)] == ds[k]
  {
  }

  lemma HoldsUpdate(before: seq<Desc>, ring: seq<Desc>, start: nat, ds: seq<Desc>, k: nat, d: Desc)
    requires Holds(ring, start, ds) && k < |ds| && Beyond(before, ring, start, |ds|)
    ensures var after := ring[RingIdxIncr(start, k, |ring|) := d];
            Holds(after, start, ds[k := d]) && Beyond(before, after, start, |ds|)
  {
  }

  lemma HoldsNothing(ring: seq<Desc>)
    requires |ring| > 0
    ensures Holds(ring, 0, [])
  {
  }

  lemma HoldsDrop(ring: seq<Desc>, start: nat, ds: seq<Desc>, n: nat)
    requires Holds(ring, start, ds) && n <= |ds| < |ring|
    ensures Holds(ring, RingIdxIncr(start, n, |ring|), ds[n..])
  {
    forall k | 0 <= k < |ds| - n
      ensures ring[RingIdxIncr(RingIdxIncr(start, n, |ring|), k, |ring|)] == ds[n..][k]
    {
      assert RingIdxIncr(RingIdxIncr(start, n, |ring|), k, |ring|) == RingIdxIncr(start, n + k, |ring|);
    }
  }

  lemma HoldsAdvance(ring: seq<Desc>, start: nat, log: seq<Desc>, from: nat, n: nat)
    requires from + n <= |log| && |log| - from < |ring| && Holds(ring, start, log[from..])
    ensures Holds(ring, RingIdxIncr(start, n, |ring|), log[from + n..])
  {
    HoldsDrop(ring, start, log[from..], n);
    assert log[from..][n..] == log[from + n..];
  }

  /** Slot 0 still holds the descriptor with which the current lap began. */
  ghost predicate LapStart(ring: seq<Desc>, pidx: nat, log: seq<Desc>) {
    pidx > 0 ==> pidx <= |log| && ring != [] && ring[0] == log[|log| - pidx]
  }

  lemma NewLap(ring: seq<Desc>)
    ensures LapStart(ring, 0, [])
  {
  }

  lemma LapGoesOn(before: seq<Desc>, after: seq<Desc>, pidx: nat, log: seq<Desc>, ds: seq<Desc>)
    requires LapStart(before, pidx, log) && 0 < |ds| < |before|
    requires Holds(after, pidx, ds) && Beyond(before, after, pidx, |ds| + 1)
    ensures LapStart(after, RingIdxIncr(pidx, |ds|, |after|), log + ds)
  {
    var n := |before|;
    if pidx == 0 {
      assert RingIdxIncr(0, 0, n) == 0;
    } else if pidx + |ds| < n {
      assert RingIdxIncr(pidx, n - pidx, n) == 0;
    } else if pidx + |ds| > n {
      assert RingIdxIncr(pidx, n - pidx, n) == 0;
      assert (log + ds)[|log| + (n - pidx)] == ds[n - pidx];
    }
  }

  /** Writing right behind what is in flight, at most into the slot after it, leaves what is
      in flight alone. */
  lemma HoldsJoin(before: seq<Desc>, after: seq<Desc>, start: nat, inFlight: seq<Desc>, ds: seq<Desc>)
    requires Holds(before, start, inFlight) && |inFlight| + |ds| < |before|
    requires var next := RingIdxIncr(start, |inFlight|, |before|);
             Holds(after, next, ds) && Beyond(before, after, next, |ds| + 1)
    ensures Holds(after, start, inFlight + ds)
  {
    var n := |before|;
    var next := RingIdxIncr(start, |inFlight|, n);
    forall k | 0 <= k < |inFlight + ds|
      ensures after[RingIdxIncr(start, k, n)] == (inFlight + ds)[k]
    {
      if k < |inFlight| {
        assert RingIdxIncr(start, k, n) == RingIdxIncr(next, n - |inFlight| + k, n);
      } else {
        assert RingIdxIncr(start, k, n) == RingIdxIncr(next, k - |inFlight|, n);
      }
    }
  }

  // ----- how long the descriptors of a pass are -----

  function Min(a: nat, b: nat): nat {
    if a < b then a else b
  }

  /** Byte `pos` of the request lies in entry `e`; a request for no bytes has one empty entry. */
  ghost predicate InEntry(r: Request, e: nat, pos: nat) {
    && e < |r.sgl| && Prefix(r.sgl, e) <= pos
    && (pos < Prefix(r.sgl, e + 1) || (r.count == 0 && pos == Prefix(r.sgl, e + 1)))
  }

  /** The memory-mapped descriptor that starts at byte `pos`, in entry `e`: as long as the entry
      and the rest of the keyhole window allow, or the length field if there is no keyhole. */
  ghost predicate Chunk(c: Conf, r: Request, d: Desc, e: nat, pos: nat) {
    && InEntry(r, e, pos) && d.MmDesc?
    && HostSide(c, d) == r.sgl[e].addr + (pos - Prefix(r.sgl, e)) && EpSide(c, d, 0) == EpAt(c, r, pos)
    && d.len == Min(Prefix(r.sgl, e + 1) - pos,
                    if c.apertureSize > 0 then c.apertureSize - pos % c.apertureSize else 0x0FFF_FFFF)
  }

  /** The streaming descriptor that starts there: as long as the entry, a page and the low half
      of the endpoint address allow, unless that address is zero; all of it payload. */
  ghost predicate Packet(r: Request, d: Desc, e: nat, pos: nat) {
    && InEntry(r, e, pos) && d.H2cDesc?
    && d.src == r.sgl[e].addr + (pos - Prefix(r.sgl, e))
    && d.len == Min(Prefix(r.sgl, e + 1) - pos, if r.epAddr == 0 then 4096 else Min(r.epAddr % 0x1_0000_0000, 4096))
    && d.pldLen == d.len && d.zeroCdh
  }

  /** Each descriptor of a pass, written for the entry beside it, starts behind the bytes of the
      ones before it and has the length that its place calls for. */
  ghost predicate Chunks(c: Conf, r: Request, ds: seq<Desc>, es: seq<nat>, from: nat) {
    |ds| == |es| && forall k :: 0 <= k < |ds| ==> Chunk(c, r, ds[k], es[k], from + |Moves(c, ds[..k])|)
  }

  ghost predicate Packets(c: Conf, r: Request, ds: seq<Desc>, es: seq<nat>, from: nat) {
    |ds| == |es| && forall k :: 0 <= k < |ds| ==> Packet(r, ds[k], es[k], from + |Moves(c, ds[..k])|)
  }

  lemma ChunksAppend(c: Conf, r: Request, ds: seq<Desc>, es: seq<nat>, from: nat, d: Desc, e: nat)
    requires Chunks(c, r, ds, es, from) && Chunk(c, r, d, e, from + |Moves(c, ds)|)
    ensures Chunks(c, r, ds + [d], es + [e], from)
  {
    hide Chunk, Moves;
    forall k | 0 <= k <= |ds| ensures Chunk(c, r, (ds + [d])[k], (es + [e])[k], from + |Moves(c, (ds + [d])[..k])|) {
      assert (ds + [d])[..k] == ds[..k];
      if k < |ds| {
        assert Chunk(c, r, ds[k], es[k], from + |Moves(c, ds[..k])|);
      } else {
        assert ds[..k] == ds;
      }
    }
  }

  lemma PacketsAppend(c: Conf, r: Request, ds: seq<Desc>, es: seq<nat>, from: nat, d: Desc, e: nat)
    requires Packets(c, r, ds, es, from) && Packet(r, d, e, from + |Moves(c, ds)|)
    ensures Packets(c, r, ds + [d], es + [e], from)
  {
    hide Packet, Moves;
    forall k | 0 <= k <= |ds| ensures Packet(r, (ds + [d])[k], (es + [e])[k], from + |Moves(c, (ds + [d])[..k])|) {
      assert (ds + [d])[..k] == ds[..k];
      if k < |ds| {
        assert Packet(r, ds[k], es[k], from + |Moves(c, ds[..k])|);
      } else {
        assert ds[..k] == ds;
      }
    }
  }

  lemma ChunkIgnoresMarks(c: Conf, r: Request, a: Desc, b: Desc, e: nat, pos: nat)
    requires Chunk(c, r, a, e, pos) && SameMoves(a, b)
    ensures Chunk(c, r, b, e, pos)
  {
  }

  /** Setting the packet marks changes no length. */
  lemma ChunksMarked(c: Conf, r: Request, ds: seq<Desc>, es: seq<nat>, from: nat)
    requires Chunks(c, r, ds, es, from) && ds != []
    ensures Chunks(c, r, Marked(ds), es, from)
  {
    hide Chunk, Moves;
    var m := Marked(ds);
    forall k | 0 <= k < |m| ensures Chunk(c, r, m[k], es[k], from + |Moves(c, m[..k])|) {
      assert Chunk(c, r, ds[k], es[k], from + |Moves(c, ds[..k])|);
      forall j | 0 <= j < k ensures SameMoves(ds[..k][j], m[..k][j]) { }
      MovesIgnoreMarks(c, ds[..k], m[..k]);
      ChunkIgnoresMarks(c, r, ds[k], m[k], es[k], from + |Moves(c, ds[..k])|);
    }
  }

  /** The descriptors `ds` written so far in one pass: they sit at `start` and on, everything
      behind them is as it was, they carry no marks yet, and they move the bytes from..pos. */
  ghost predicate Written(c: Conf, before: seq<Desc>, now: seq<Desc>, start: nat, ds: seq<Desc>, r: Request, from: nat,
                          pos: nat) {
    && |now| == c.rngsz && start < c.rngsz
    && Holds(now, start, ds) && Beyond(before, now, start, |ds|)
    && (forall k :: 0 <= k < |ds| ==> !ds[k].sop && !ds[k].eop)
    && from <= pos <= Total(r.sgl) && Moves(c, ds) == Wanted(c, r, from, pos)
  }

  lemma WriteNone(c: Conf, ring: seq<Desc>, start: nat, r: Request, i: nat, o: nat)
    requires |ring| == c.rngsz && start < c.rngsz && i < |r.sgl| && o <= r.sgl[i].len
    ensures var pos := Prefix(r.sgl, i) + o; Written(c, ring, ring, start, [], r, pos, pos)
  {
    PrefixMonotone(r.sgl, i + 1, |r.sgl|);
  }

  lemma WriteOne(c: Conf, before: seq<Desc>, now: seq<Desc>, start: nat, ds: seq<Desc>, r: Request, from: nat, pos: nat,
                 d: Desc)
    requires Written(c, before, now, start, ds, r, from, pos) && |ds| < |now|
    requires !d.sop && !d.eop && pos + d.len <= Total(r.sgl)
    requires DescMoves(c, d) == Wanted(c, r, pos, pos + d.len)
    ensures var after := now[RingIdxIncr(start, |ds|, c.rngsz) := d];
            Written(c, before, after, start, ds + [d], r, from, pos + d.len)
  {
    HoldsAppend(before, now, start, ds, d);
    MovesAppend(c, ds, d);
    WantedExtend(c, r, from, pos, pos + d.len);
  }

  lemma WrittenLength(c: Conf, before: seq<Desc>, now: seq<Desc>, start: nat, ds: seq<Desc>, r: Request, from: nat,
                      pos: nat)
    requires Written(c, before, now, start, ds, r, from, pos)
    ensures from + |Moves(c, ds)| == pos
  {
  }

  /** The descriptor that the inner loop builds `o` bytes into entry `i` has the right length. */
  lemma ChunkBuilt(c: Conf, r: Request, d: Desc, i: nat, o: nat, pos: nat)
    requires !c.st && d.MmDesc? && i < |r.sgl| && pos == Prefix(r.sgl, i) + o
    requires o < r.sgl[i].len || (o == r.sgl[i].len && r.count == 0)
    requires HostSide(c, d) == r.sgl[i].addr + o && EpSide(c, d, 0) == EpAt(c, r, pos)
    requires d.len == Min(r.sgl[i].len - o,
                          if c.apertureSize > 0 then c.apertureSize - pos % c.apertureSize else 0x0FFF_FFFF)
    ensures Chunk(c, r, d, i, pos)
  {
  }

  /** A memory-mapped descriptor built at the endpoint cursor moves the right bytes. */
  lemma MmDescMoves(c: Conf, r: Request, d: Desc, i: nat, o: nat, pos: nat, ep: nat)
    requires !c.st && d.MmDesc? && i < |r.sgl| && o + d.len <= r.sgl[i].len && pos == Prefix(r.sgl, i) + o
    requires HostSide(c, d) == r.sgl[i].addr + o && EpSide(c, d, 0) == ep
    requires c.apertureSize == 0 ==> ep == r.epAddr + pos
    requires c.apertureSize > 0 ==> ep == r.epAddr + pos % c.apertureSize
    requires c.apertureSize > 0 ==> pos % c.apertureSize + d.len <= c.apertureSize
    ensures pos + d.len <= Total(r.sgl)
    ensures DescMoves(c, d) == Wanted(c, r, pos, pos + d.len)
    ensures EpCursor(c, r, pos + d.len, ep + d.len)
  {
    EpRun(c, r, d, pos);
    DescCovers(c, r, d, i, o, pos);
    EpCursorStep(c, r, pos, ep, d.len);
  }

  /** Exactly the first descriptor of a batch starts and exactly the last one ends a packet. */
  ghost predicate Framed(ds: seq<Desc>) {
    forall k :: 0 <= k < |ds| ==> (ds[k].sop <==> k == 0) && (ds[k].eop <==> k == |ds| - 1)
  }

  function Marked(ds: seq<Desc>): seq<Desc>
    requires ds != []
  {
    var ended := ds[|ds| - 1 := ds[|ds| - 1].(eop := true)];
    ended[0 := ended[0].(sop := true)]
  }

  lemma MarksKeepMoves(c: Conf, ds: seq<Desc>)
    requires ds != [] && forall k :: 0 <= k < |ds| ==> !ds[k].sop && !ds[k].eop
    ensures Moves(c, Marked(ds)) == Moves(c, ds) && Framed(Marked(ds))
  {
    var m := Marked(ds);
    forall k | 0 <= k < |ds| ensures SameMoves(ds[k], m[k]) { }
    MovesIgnoreMarks(c, ds, m);
  }

  /** A finished pass as the queue needs it. */
  lemma PassDone(c: Conf, before: seq<Desc>, ring: seq<Desc>, start: nat, ds: seq<Desc>, r: Request, from: nat,
                 pos: nat)
    requires Written(c, before, ring, start, ds, r, from, pos) && ds != []
    ensures Holds(ring, start, ds) && Beyond(before, ring, start, |ds|)
    ensures |Marked(ds)| == |ds| && Framed(Marked(ds)) && from <= pos <= Total(r.sgl)
    ensures Moves(c, Marked(ds)) == Wanted(c, r, from, pos)
  {
    MarksKeepMoves(c, ds);
  }

  /** Endpoint cursor with which a pass resumes (qdma_descq.c:239-242); the code masks. */
  function ResumeEp(c: Conf, r: Request, offset: nat): nat {
    if c.apertureSize == 0 then r.epAddr + offset
    else r.epAddr + And(offset, c.apertureSize - 1)
  }

  lemma ResumeEpCursor(c: Conf, r: Request, offset: nat)
    requires ConfOk(c)
    ensures EpCursor(c, r, offset, ResumeEp(c, r, offset))
  {
    if c.apertureSize > 0 {
      var k: nat :| c.apertureSize == Pow2(k);
      AndMask(offset, k);
    }
  }

  // ----- streaming descriptors -----

  /** Longest payload of one streaming descriptor (qdma_descq.c:525-527): the endpoint address
      is cut to 32 bits before it is compared with the page size. */
  function H2cPktsz(r: Request): nat {
    if r.epAddr == 0 then PAGE_SIZE
    else if r.epAddr % U32 < PAGE_SIZE then r.epAddr % U32 else PAGE_SIZE
  }

  /** A request of which the streaming loop cannot issue a byte: what is left of its endpoint
      address is zero. */
  predicate Stuck(r: Request) {
    r.count > 0 && r.epAddr > 0 && r.epAddr % U32 == 0
  }

  predicate Stalls(c: Conf, r: Request) {
    c.st && Stuck(r)
  }

  /** Entry and byte of the list at which byte `pos` of the buffer lies. */
  function Locate(sgl: seq<Seg>, pos: nat): (nat, nat) {
    if |sgl| <= 1 || pos < sgl[0].len then (0, pos)
    else var (i, o) := Locate(sgl[1..], pos - sgl[0].len); (i + 1, o)
  }

  lemma {:induction false} PrefixTail(sgl: seq<Seg>, i: nat)
    requires i < |sgl|
    ensures Prefix(sgl, i + 1) == sgl[0].len + Prefix(sgl[1..], i)
  {
    if i > 0 { PrefixTail(sgl, i - 1); }
  }

  /** The place is the one that the search for the offset finds. */
  lemma {:induction false} LocateUnique(sgl: seq<Seg>, i: nat, o: nat)
    requires i < |sgl| && (o < sgl[i].len || (|sgl| == 1 && o == 0))
    ensures Locate(sgl, Prefix(sgl, i) + o) == (i, o)
  {
    if i == 0 {
      assert Prefix(sgl, 0) == 0;
    } else {
      PrefixTail(sgl, i - 1);
      LocateUnique(sgl[1..], i - 1, o);
    }
  }

  /** The entries that the descriptors of a streaming pass are written for, one after the
      other, from byte `o` of entry `i` on while there is room. */
  function EntriesFrom(sgl: seq<Seg>, i: nat, o: nat, pktsz: nat, room: nat): seq<nat>
    decreases room
  {
    if room == 0 || i >= |sgl| then []
    else if o + pktsz < sgl[i].len then [i] + EntriesFrom(sgl, i, o + pktsz, pktsz, room - 1)
    else [i] + EntriesFrom(sgl, i + 1, 0, pktsz, room - 1)
  }

  lemma EntriesStep(sgl: seq<Seg>, i: nat, o: nat, pktsz: nat, room: nat)
    requires i < |sgl| && room > 0
    ensures EntriesFrom(sgl, i, o, pktsz, room) ==
            [i] + if o + pktsz < sgl[i].len then EntriesFrom(sgl, i, o + pktsz, pktsz, room - 1)
                  else EntriesFrom(sgl, i + 1, 0, pktsz, room - 1)
  {
  }

  /** One turn of the do-while loop: the entry list grows by `i`, and what remains starts
      behind the bytes just issued. */
  lemma EntriesTurn(sgl: seq<Seg>, i: nat, o: nat, pktsz: nat, room: nat, es: seq<nat>)
    requires i < |sgl| && room > 0
    ensures o + pktsz < sgl[i].len && room > 1 ==>
              es + EntriesFrom(sgl, i, o, pktsz, room) == es + [i] + EntriesFrom(sgl, i, o + pktsz, pktsz, room - 1)
    ensures o + pktsz >= sgl[i].len || room == 1 ==>
              es + EntriesFrom(sgl, i, o, pktsz, room) == es + [i] + EntriesFrom(sgl, i + 1, 0, pktsz, room - 1)
  {
    hide EntriesFrom;
    EntriesStep(sgl, i, o, pktsz, room);
    if room == 1 {
      EntriesEnd(sgl, i, o + pktsz, pktsz, 0);
      EntriesEnd(sgl, i + 1, 0, pktsz, 0);
    }
    Reassociate(es, i, EntriesFrom(sgl, i, o + pktsz, pktsz, room - 1));
    Reassociate(es, i, EntriesFrom(sgl, i + 1, 0, pktsz, room - 1));
  }

  lemma Reassociate(es: seq<nat>, i: nat, rest: seq<nat>)
    ensures es + ([i] + rest) == es + [i] + rest
  {
  }

  lemma EntriesEnd(sgl: seq<Seg>, i: nat, o: nat, pktsz: nat, room: nat)
    requires room == 0 || i >= |sgl|
    ensures EntriesFrom(sgl, i, o, pktsz, room) == []
  {
  }

  /** The entries of the pass that resumes a request at `offset` with room for `room`. */
  function PassEntries(r: Request, offset: nat, room: nat): seq<nat> {
    var (i, o) := Locate(r.sgl, offset);
    EntriesFrom(r.sgl, i, o, H2cPktsz(r), room)
  }

  function Unmarked(d: Desc): Desc {
    d.(sop := false, eop := false)
  }

  /** Start-of-packet of descriptor `k` of a pass, written for entry `e`: set for the first
      entry in the dummy bypass case, and also when the slot is slot 0 reached by wrapping,
      whose old mark the loop does not clear. */
  ghost predicate H2cSop(c: Conf, before: seq<Desc>, start: nat, k: nat, e: nat) {
    (c.descBypass && e == 0) || (k > 0 && |before| > 0 && RingIdxIncr(start, k, c.rngsz) == 0 && before[0].sop)
  }

  ghost predicate H2cEop(c: Conf, r: Request, before: seq<Desc>, start: nat, k: nat, e: nat) {
    (c.descBypass && e == |r.sgl| - 1) ||
      (k > 0 && |before| > 0 && RingIdxIncr(start, k, c.rngsz) == 0 && before[0].eop)
  }

  /** The slot a pass writes next: unmarked, unless it was reached by wrapping. */
  ghost predicate NextSlot(c: Conf, before: seq<Desc>, now: seq<Desc>, start: nat, n: nat) {
    && |now| == |before| == c.rngsz && start < c.rngsz && n < c.rngsz
    && var slot := RingIdxIncr(start, n, c.rngsz);
       now[slot] == if n > 0 && slot == 0 then before[slot] else Unmarked(before[slot])
  }

  /** A streaming pass so far: `ds` written for the entries `es`, at most the next slot
      touched besides, the bytes from..pos moved. */
  ghost predicate Streamed(c: Conf, before: seq<Desc>, now: seq<Desc>, start: nat, ds: seq<Desc>, es: seq<nat>,
                           r: Request, from: nat, pos: nat) {
    && |ds| == |es| && NextSlot(c, before, now, start, |ds|)
    && Holds(now, start, ds) && Beyond(before, now, start, |ds| + 1)
    && (forall k :: 0 <= k < |ds| ==>
         (ds[k].sop <==> H2cSop(c, before, start, k, es[k])) && (ds[k].eop <==> H2cEop(c, r, before, start, k, es[k])))
    && from <= pos <= Total(r.sgl) && Moves(c, ds) == Wanted(c, r, from, pos)
  }

  /** Ring after writing `d` at `slot` and, unless the index wraps, unmarking the next slot. */
  function PutH2c(ring: seq<Desc>, slot: nat, d: Desc): seq<Desc>
    requires slot < |ring|
  {
    var put := ring[slot := d];
    if slot + 1 == |ring| then put else put[slot + 1 := Unmarked(put[slot + 1])]
  }

  lemma StreamNone(c: Conf, before: seq<Desc>, start: nat, r: Request, i: nat, o: nat)
    requires |before| == c.rngsz && start < c.rngsz && i < |r.sgl| && o <= r.sgl[i].len
    ensures var pos := Prefix(r.sgl, i) + o;
            Streamed(c, before, before[start := Unmarked(before[start])], start, [], [], r, pos, pos)
  {
    PrefixMonotone(r.sgl, i + 1, |r.sgl|);
  }

  lemma H2cDescMoves(c: Conf, r: Request, d: Desc, i: nat, o: nat, pos: nat)
    requires c.st && d.H2cDesc? && i < |r.sgl| && o + d.len <= r.sgl[i].len && pos == Prefix(r.sgl, i) + o
    requires d.src == r.sgl[i].addr + o
    ensures pos + d.len <= Total(r.sgl)
    ensures DescMoves(c, d) == Wanted(c, r, pos, pos + d.len)
  {
    forall k | 0 <= k < d.len ensures EpMeets(c, r, d, pos, k) { }
    DescCovers(c, r, d, i, o, pos);
  }

  lemma PacketBuilt(r: Request, d: Desc, i: nat, o: nat, pos: nat)
    requires i < |r.sgl| && pos == Prefix(r.sgl, i) + o
    requires o < r.sgl[i].len || (o == r.sgl[i].len && r.count == 0)
    requires d.H2cDesc? && d.src == r.sgl[i].addr + o && d.pldLen == d.len && d.zeroCdh
    requires d.len == Min(r.sgl[i].len - o, H2cPktsz(r))
    ensures Packet(r, d, i, pos)
  {
  }

  lemma StreamedLength(c: Conf, before: seq<Desc>, now: seq<Desc>, start: nat, ds: seq<Desc>, es: seq<nat>, r: Request,
                       from: nat, pos: nat)
    requires Streamed(c, before, now, start, ds, es, r, from, pos)
    ensures from + |Moves(c, ds)| == pos
  {
  }

  lemma PutH2cHolds(before: seq<Desc>, now: seq<Desc>, start: nat, ds: seq<Desc>, d: Desc)
    requires Holds(now, start, ds) && |ds| + 1 < |now| && Beyond(before, now, start, |ds| + 1)
    ensures var after := PutH2c(now, RingIdxIncr(start, |ds|, |now|), d);
            && Holds(after, start, ds + [d]) && Beyond(before, after, start, |ds| + 2)
            && var next := RingIdxIncr(start, |ds| + 1, |now|);
               after[next] == if next == 0 then before[next] else Unmarked(before[next])
  {
    var slot := RingIdxIncr(start, |ds|, |now|);
    var next := RingIdxIncr(start, |ds| + 1, |now|);
    assert next == if slot + 1 == |now| then 0 else slot + 1;
    var put := now[slot := d];
    HoldsAppend(now, now, start, ds, d);
    assert forall k :: 0 <= k <= |ds| ==> RingIdxIncr(start, k, |now|) != next;
  }

  lemma StreamOne(c: Conf, before: seq<Desc>, now: seq<Desc>, start: nat, ds: seq<Desc>, es: seq<nat>,
                  r: Request, from: nat, pos: nat, d: Desc, e: nat)
    requires Streamed(c, before, now, start, ds, es, r, from, pos) && |ds| + 1 < |now|
    requires pos + d.len <= Total(r.sgl) && DescMoves(c, d) == Wanted(c, r, pos, pos + d.len)
    requires var prior := now[RingIdxIncr(start, |ds|, c.rngsz)];
             && (d.sop <==> prior.sop || (c.descBypass && e == 0))
             && (d.eop <==> prior.eop || (c.descBypass && e == |r.sgl| - 1))
    ensures Streamed(c, before, PutH2c(now, RingIdxIncr(start, |ds|, c.rngsz), d), start, ds + [d], es + [e], r, from,
            pos + d.len)
  {
    hide NextSlot, Holds, Beyond, Moves, Wanted, DescMoves, H2cSop, H2cEop, PutH2c, Prefix;
    StreamShape(c, before, now, start, |ds|);
    StreamSlot(c, before, now, start, ds, r, d, e);
    MovesAppend(c, ds, d);
    WantedExtend(c, r, from, pos, pos + d.len);
  }

  lemma StreamShape(c: Conf, before: seq<Desc>, now: seq<Desc>, start: nat, n: nat)
    requires NextSlot(c, before, now, start, n)
    ensures |now| == c.rngsz && start < c.rngsz && RingIdxIncr(start, n, c.rngsz) < c.rngsz
  {
  }

  /** The marks of one descriptor, and the slot behind it. */
  lemma StreamSlot(c: Conf, before: seq<Desc>, now: seq<Desc>, start: nat, ds: seq<Desc>, r: Request, d: Desc, e: nat)
    requires NextSlot(c, before, now, start, |ds|) && Holds(now, start, ds) && Beyond(before, now, start, |ds| + 1) &&
             |ds| + 1 < |now|
    requires var prior := now[RingIdxIncr(start, |ds|, c.rngsz)];
             && (d.sop <==> prior.sop || (c.descBypass && e == 0))
             && (d.eop <==> prior.eop || (c.descBypass && e == |r.sgl| - 1))
    ensures var after := PutH2c(now, RingIdxIncr(start, |ds|, c.rngsz), d);
            && NextSlot(c, before, after, start, |ds| + 1) && Holds(after, start, ds + [d]) &&
               Beyond(before, after, start, |ds| + 2)
    ensures (d.sop <==> H2cSop(c, before, start, |ds|, e)) && (d.eop <==> H2cEop(c, r, before, start, |ds|, e))
  {
    hide Holds, Beyond, PutH2c;
    PutH2cHolds(before, now, start, ds, d);
    PutH2cLength(now, RingIdxIncr(start, |ds|, c.rngsz), d);
  }

  lemma PutH2cLength(ring: seq<Desc>, slot: nat, d: Desc)
    requires slot < |ring|
    ensures |PutH2c(ring, slot, d)| == |ring|
  {
  }

  /** A finished pass as the queue needs it. */
  lemma StreamDone(c: Conf, before: seq<Desc>, ring: seq<Desc>, start: nat, ds: seq<Desc>, es: seq<nat>,
                   r: Request, from: nat, pos: nat)
    requires Streamed(c, before, ring, start, ds, es, r, from, pos)
    ensures |ds| == |es| && Holds(ring, start, ds) && Beyond(before, ring, start, |ds| + 1)
    ensures from <= pos <= Total(r.sgl) && Moves(c, ds) == Wanted(c, r, from, pos)
    ensures forall k :: 0 <= k < |ds| ==>
              (ds[k].sop <==> H2cSop(c, before, start, k, es[k])) &&
                (ds[k].eop <==> H2cEop(c, r, before, start, k, es[k]))
  {
  }

  // ----- the queue -----

  /** The indices, and the absolute log positions they stand for: descriptors consumed as far
      as the driver knows, consumed by the device, posted to the doorbell register, and staged
      in `pidx_info.pidx`. */
  datatype Index = Index(
    pidx: nat, cidx: nat, avail: nat, pidxInfo: nat, hwPidx: nat, hwCidx: nat,
    consumed: nat, device: nat, posted: nat, soft: nat)

  datatype Tx = Tx(
    idx: Index, credit: nat, workReqPend: nat, work: seq<Cb>, pend: seq<Cb>,
    log: seq<Desc>, ends: seq<nat>, submitted: seq<Request>, completed: seq<Completion>)

  /** Every index agrees with an absolute position, and the device only ever works inside
      the window that the doorbell gave it. `n` descriptors have been issued. */
  ghost predicate IndexInv(rngsz: nat, i: Index, n: nat) {
    && i.cidx < rngsz
    && i.consumed <= i.device <= i.posted <= i.soft <= n < i.consumed + rngsz
    && i.pidx == RingIdxIncr(i.cidx, n - i.consumed, rngsz) && i.pidx <= n
    && i.avail + (n - i.consumed) == rngsz - 1
    && i.pidxInfo == RingIdxIncr(i.cidx, i.soft - i.consumed, rngsz)
    && i.hwPidx == RingIdxIncr(i.cidx, i.posted - i.consumed, rngsz)
    && i.hwCidx == RingIdxIncr(i.cidx, i.device - i.consumed, rngsz)
  }

  /** The callbacks made and the two lists split the submissions in order. */
  ghost predicate QueueInv(submitted: seq<Request>, completed: seq<Completion>, pend: seq<Cb>, work: seq<Cb>) {
    && |submitted| == |completed| + |pend| + |work|
    && (forall i :: 0 <= i < |completed| ==> completed[i] == Completion(submitted[i], submitted[i].count, 0))
    && (forall i :: 0 <= i < |pend| ==>
         pend[i].req == submitted[|completed| + i] && pend[i].offset == pend[i].req.count)
    && (forall i :: 0 <= i < |work| ==> work[i].req == submitted[|completed| + |pend| + i])
    && (forall i :: 0 < i < |work| ==> Fresh(work[i]))
    && (forall i :: 0 <= i < |submitted| ==> WellFormed(submitted[i]))
  }

  ghost predicate Fresh(cb: Cb) { cb.descNr == 0 && cb.offset == 0 }

  /** First descriptor of request number `g`. */
  function Start(ends: seq<nat>, g: nat): nat
    requires g <= |ends|
  {
    if g == 0 then 0 else ends[g - 1]
  }

  /** Fully issued requests own consecutive, non-empty stretches of the `n` descriptors. */
  ghost predicate EndsInv(ends: seq<nat>, n: nat) {
    && (forall g :: 0 <= g < |ends| ==> 0 < ends[g] <= n)
    && (forall g, h :: 0 <= g < h < |ends| ==> ends[g] < ends[h])
  }

  /** Request number `g` was turned into descriptors that move exactly its bytes. */
  ghost predicate Exact(c: Conf, log: seq<Desc>, ends: seq<nat>, submitted: seq<Request>, g: nat) {
    && g < |ends| && g < |submitted| && Start(ends, g) < ends[g] <= |log|
    && var r := submitted[g];
       Total(r.sgl) == r.count && Moves(c, log[Start(ends, g)..ends[g]]) == Wanted(c, r, 0, r.count)
  }

  ghost predicate ByteInv(c: Conf, log: seq<Desc>, ends: seq<nat>, submitted: seq<Request>) {
    forall g: nat :: g < |ends| ==> Exact(c, log, ends, submitted, g)
  }

  /** Descriptors behind the last fully issued request. */
  function HeadDescs(log: seq<Desc>, ends: seq<nat>): seq<Desc>
    requires EndsInv(ends, |log|)
  {
    log[Start(ends, |ends|)..]
  }

  /** They belong to the head of the work list and move its first `offset` bytes. */
  ghost predicate HeadInv(c: Conf, ds: seq<Desc>, work: seq<Cb>) {
    if work == [] then ds == [] else HeadExact(c, ds, work[0]) && (Fresh(work[0]) || work[0].offset < work[0].req.count)
  }

  ghost predicate HeadExact(c: Conf, ds: seq<Desc>, cb: Cb) {
    && cb.offset <= cb.req.count == Total(cb.req.sgl)
    && cb.descNr == |ds|
    && Moves(c, ds) == Wanted(c, cb.req, 0, cb.offset)
  }

  /** Of the `consumed` descriptors, all but `cr` have been set against requests in order. */
  ghost predicate Settled(ends: seq<nat>, done: nat, pend: seq<Cb>, consumed: nat, cr: nat) {
    && |ends| == done + |pend|
    && Start(ends, done) + cr <= consumed
    && (pend == [] ==> Start(ends, done) + cr == consumed)
    && (pend != [] ==> consumed + pend[0].descNr == ends[done] + cr && pend[0].descNr > 0)
    && (forall i :: 0 < i < |pend| ==> ends[done + i - 1] + pend[i].descNr == ends[done + i])
  }

  /** The ledger at rest: a fully issued request is still pending only while the device has
      something of it left. */
  ghost predicate LedgerInv(ends: seq<nat>, done: nat, pend: seq<Cb>, consumed: nat, cr: nat) {
    Settled(ends, done, pend, consumed, cr) && (pend != [] ==> consumed < ends[done])
  }

  /** A streaming request that cannot move is never finished and never moves a byte. */
  ghost predicate StallInv(c: Conf, ends: seq<nat>, submitted: seq<Request>, work: seq<Cb>) {
    && (forall g :: 0 <= g < |ends| && g < |submitted| ==> !Stalls(c, submitted[g]))
    && (work != [] && Stalls(c, work[0].req) ==> work[0].offset == 0)
  }

  /** Streaming descriptors carry marks in bypass mode only. */
  ghost predicate Plain(c: Conf, ds: seq<Desc>) {
    c.st && !c.descBypass ==> forall k :: 0 <= k < |ds| ==> !ds[k].sop && !ds[k].eop
  }

  /** The invariant without the ledger, which is broken while credits are handed out. */
  ghost predicate Core(c: Conf, t: Tx) {
    && ConfOk(c) && t.workReqPend == |t.work|
    && IndexInv(c.rngsz, t.idx, |t.log|)
    && QueueInv(t.submitted, t.completed, t.pend, t.work)
    && EndsInv(t.ends, |t.log|)
    && ByteInv(c, t.log, t.ends, t.submitted)
    && HeadInv(c, HeadDescs(t.log, t.ends), t.work)
    && StallInv(c, t.ends, t.submitted, t.work)
    && Plain(c, t.log)
  }

  ghost predicate Inv(c: Conf, t: Tx) {
    Core(c, t) && LedgerInv(t.ends, |t.completed|, t.pend, t.idx.consumed, t.credit)
  }

  // ----- the marks of a streaming pass -----

  /** Descriptor `k` of the next pass lands in slot 0 because the index wraps. */
  predicate WrapsAt(c: Conf, i: Index, k: nat) {
    i.pidx > 0 && i.pidx + k == c.rngsz
  }

  /** Start-of-packet of descriptor `k` of the next pass, written for entry `e`: that of the
      dummy bypass case, and whatever slot 0 was left with when the lap began. */
  ghost predicate SopMark(c: Conf, t: Tx, k: nat, e: nat) {
    (c.descBypass && e == 0) ||
    (WrapsAt(c, t.idx, k) && t.idx.pidx <= |t.log| && t.log[|t.log| - t.idx.pidx].sop)
  }

  ghost predicate EopMark(c: Conf, t: Tx, r: Request, k: nat, e: nat) {
    (c.descBypass && e == |r.sgl| - 1) ||
    (WrapsAt(c, t.idx, k) && t.idx.pidx <= |t.log| && t.log[|t.log| - t.idx.pidx].eop)
  }

  ghost predicate MarkedAs(c: Conf, t: Tx, r: Request, d: Desc, k: nat, e: nat) {
    (d.sop <==> SopMark(c, t, k, e)) && (d.eop <==> EopMark(c, t, r, k, e))
  }

  /** A pass issued in state `t` carries exactly those marks. */
  ghost predicate PassMarks(c: Conf, t: Tx, r: Request, ds: seq<Desc>, es: seq<nat>) {
    |ds| == |es| && forall k :: 0 <= k < |ds| ==> MarkedAs(c, t, r, ds[k], k, es[k])
  }

  lemma MarksOfPass(c: Conf, t: Tx, before: seq<Desc>, r: Request, ds: seq<Desc>, es: seq<nat>)
    requires |before| == c.rngsz && t.idx.pidx < c.rngsz && |ds| == |es| <= c.rngsz
    requires LapStart(before, t.idx.pidx, t.log) && Plain(c, t.log)
    requires forall k :: 0 <= k < |ds| ==>
               && (ds[k].sop <==> H2cSop(c, before, t.idx.pidx, k, es[k]))
               && (ds[k].eop <==> H2cEop(c, r, before, t.idx.pidx, k, es[k]))
    ensures PassMarks(c, t, r, ds, es) && Plain(c, ds)
  {
    forall k | 0 <= k < |ds| ensures MarkedAs(c, t, r, ds[k], k, es[k]) {
      assert (k > 0 && RingIdxIncr(t.idx.pidx, k, c.rngsz) == 0) <==> WrapsAt(c, t.idx, k);
    }
    if c.st && !c.descBypass {
      forall k | 0 <= k < |ds| ensures !ds[k].sop && !ds[k].eop {
        assert MarkedAs(c, t, r, ds[k], k, es[k]);
      }
    }
  }

  const EMPTY_SLOT := MmDesc(0, 0, 0, false, false)

  /** A freshly started queue. */
  function Init(rngsz: nat): Tx
    requires rngsz > 0
  {
    Tx(Index(0, 0, rngsz - 1, 0, 0, 0, 0, 0, 0, 0), 0, 0, [], [], [], [], [], [])
  }

  lemma InitInv(c: Conf)
    requires ConfOk(c)
    ensures Inv(c, Init(c.rngsz))
  {
  }

  /** Every submission was called back exactly once, in order. */
  ghost predicate CalledBack(submitted: seq<Request>, completed: seq<Completion>) {
    && |completed| == |submitted|
    && forall i :: 0 <= i < |completed| ==> completed[i].req == submitted[i]
  }

  /** The callbacks of requests that a stop gives up on. */
  function Aborted(cbs: seq<Cb>): seq<Completion> {
    if cbs == [] then [] else [Completion(cbs[0].req, 0, -ENXIO)] + Aborted(cbs[1..])
  }

  lemma {:induction false} AbortedAt(cbs: seq<Cb>, i: nat)
    requires i <= |cbs|
    ensures |Aborted(cbs)| == |cbs|
    ensures i < |cbs| ==> Aborted(cbs)[i] == Completion(cbs[i].req, 0, -ENXIO)
  {
    if cbs != [] { AbortedAt(cbs[1..], if i == 0 then 0 else i - 1); }
  }

  /** Giving up on the two lists in order completes the order of submission. */
  lemma StopOrder(c: Conf, t: Tx)
    requires Inv(c, t)
    ensures CalledBack(t.submitted, t.completed + Aborted(t.pend) + Aborted(t.work))
    ensures t.workReqPend == |t.work|
  {
    var all := t.completed + Aborted(t.pend) + Aborted(t.work);
    AbortedAt(t.pend, 0);
    AbortedAt(t.work, 0);
    forall i | 0 <= i < |all| ensures all[i].req == t.submitted[i] {
      var j, k := i - |t.completed|, i - |t.completed| - |t.pend|;
      if 0 <= j < |t.pend| {
        AbortedAt(t.pend, j);
        assert t.pend[j].req == t.submitted[|t.completed| + j];
      } else if 0 <= k {
        AbortedAt(t.work, k);
        assert t.work[k].req == t.submitted[|t.completed| + |t.pend| + k];
      }
    }
  }

  /** What never goes back from one locked region to the next. */
  ghost predicate Advances(t: Tx, u: Tx) {
    && t.log <= u.log && t.ends <= u.ends
    && t.submitted <= u.submitted && t.completed <= u.completed
    && t.idx.consumed <= u.idx.consumed && t.idx.device <= u.idx.device && t.idx.posted <= u.idx.posted
  }

  lemma AdvancesTrans(t: Tx, u: Tx, v: Tx)
    requires Advances(t, u) && Advances(u, v)
    ensures Advances(t, v)
  {
  }
}
