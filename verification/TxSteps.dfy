/** What one step of the engine does to the queue, and that every step keeps the invariant. */
module TxSteps {
  import opened Ring
  import opened ScatterGather
  import opened TxModel

  // ----- device and doorbell -----

  /** The device consumes `n` more descriptors of the window it was given. */
  function Consume(c: Conf, t: Tx, n: nat): Tx {
    t.(idx := t.idx.(hwCidx := RingIdxIncr(t.idx.hwCidx, n, c.rngsz), device := t.idx.device + n))
  }

  /** `pidx_info.pidx` is set to the producer index. */
  function Stage(t: Tx): Tx {
    t.(idx := t.idx.(pidxInfo := t.idx.pidx, soft := |t.log|))
  }

  /** The staged index reaches the doorbell register. */
  function Post(t: Tx): Tx {
    t.(idx := t.idx.(hwPidx := t.idx.pidxInfo, posted := t.idx.soft))
  }

  lemma ConsumeKeeps(c: Conf, t: Tx, n: nat)
    requires Inv(c, t)
    ensures t.idx.device <= t.idx.posted
    ensures RingIdxDelta(t.idx.hwPidx, t.idx.hwCidx, c.rngsz) == t.idx.posted - t.idx.device
    ensures n <= t.idx.posted - t.idx.device ==> Inv(c, Consume(c, t, n))
  {
  }

  lemma StageKeeps(c: Conf, t: Tx)
    requires Inv(c, t)
    ensures Inv(c, Stage(t))
  {
  }

  lemma PostKeeps(c: Conf, t: Tx)
    requires Inv(c, t)
    ensures Inv(c, Post(t)) && t.idx.posted <= t.idx.soft
  {
  }

  // ----- completion -----

  /** The credits that a writeback brings (qdma_descq.c:820-821). */
  function Credits(rngsz: nat, cidx: nat, cidxHw: nat): int {
    if cidxHw < cidx then (rngsz - cidx) + cidxHw else cidxHw - cidx
  }

  function Absorb(t: Tx, cr: nat): Tx {
    t.(idx := t.idx.(cidx := t.idx.hwCidx, avail := t.idx.avail + cr, consumed := t.idx.consumed + cr),
       credit := t.credit + cr)
  }

  lemma AbsorbIndex(rngsz: nat, i: Index, n: nat)
    requires IndexInv(rngsz, i, n)
    ensures i.consumed <= i.device <= n < i.consumed + rngsz
    ensures Credits(rngsz, i.cidx, i.hwCidx) == i.device - i.consumed
    ensures i.hwCidx == RingIdxIncr(i.cidx, i.device - i.consumed, rngsz)
    ensures var cr := i.device - i.consumed;
            IndexInv(rngsz, i.(cidx := i.hwCidx, avail := i.avail + cr, consumed := i.consumed + cr), n)
  {
  }

  lemma AbsorbLedger(ends: seq<nat>, done: nat, pend: seq<Cb>, consumed: nat, credit: nat, cr: nat)
    requires LedgerInv(ends, done, pend, consumed, credit)
    ensures Settled(ends, done, pend, consumed + cr, credit + cr)
  {
  }

  lemma AbsorbKeeps(c: Conf, t: Tx)
    requires Inv(c, t)
    ensures t.idx.consumed <= t.idx.device <= |t.log| < t.idx.consumed + c.rngsz
    ensures Credits(c.rngsz, t.idx.cidx, t.idx.hwCidx) == t.idx.device - t.idx.consumed
    ensures t.idx.hwCidx == RingIdxIncr(t.idx.cidx, t.idx.device - t.idx.consumed, c.rngsz)
    ensures var u := Absorb(t, t.idx.device - t.idx.consumed);
            Core(c, u) && Settled(u.ends, |u.completed|, u.pend, u.idx.consumed, u.credit)
  {
    hide IndexInv, QueueInv, EndsInv, ByteInv, HeadInv, StallInv, Plain, LedgerInv, Settled, Credits, RingIdxIncr;
    AbsorbIndex(c.rngsz, t.idx, |t.log|);
    AbsorbLedger(t.ends, |t.completed|, t.pend, t.idx.consumed, t.credit, t.idx.device - t.idx.consumed);
  }

  function Retire(t: Tx): Tx
    requires t.pend != []
  {
    var cb := t.pend[0];
    t.(pend := t.pend[1..],
       completed := t.completed + [Completion(cb.req, cb.offset, if cb.offset != cb.req.count then -EINVAL else 0)])
  }

  lemma RetireQueue(t: Tx)
    requires QueueInv(t.submitted, t.completed, t.pend, t.work) && t.pend != []
    ensures var u := Retire(t); QueueInv(u.submitted, u.completed, u.pend, u.work)
  {
    var u := Retire(t);
    assert t.pend[0].req == t.submitted[|t.completed| + 0];
    forall i | 0 <= i < |u.pend|
      ensures u.pend[i].req == u.submitted[|u.completed| + i] && u.pend[i].offset == u.pend[i].req.count
    {
      assert u.pend[i] == t.pend[i + 1];
    }
  }

  lemma RetireSettled(ends: seq<nat>, n: nat, done: nat, pend: seq<Cb>, consumed: nat, cr: nat)
    requires EndsInv(ends, n) && Settled(ends, done, pend, consumed, cr)
    requires pend != [] && cr >= pend[0].descNr
    ensures Settled(ends, done + 1, pend[1..], consumed, cr - pend[0].descNr)
  {
    forall i | 0 <= i < |pend[1..]|
      ensures ends[done + i] + pend[1..][i].descNr == ends[done + 1 + i]
    {
      assert pend[1..][i] == pend[i + 1];
    }
  }

  lemma RetireKeeps(c: Conf, t: Tx, cr: nat)
    requires Core(c, t) && Settled(t.ends, |t.completed|, t.pend, t.idx.consumed, cr)
    requires t.pend != [] && cr >= t.pend[0].descNr
    ensures var u := Retire(t);
            Core(c, u) && Settled(u.ends, |u.completed|, u.pend, u.idx.consumed, cr - t.pend[0].descNr)
    ensures t.idx.avail == c.rngsz - 1 <==> t.idx.consumed == |t.log|
  {
    RetireQueue(t);
    RetireSettled(t.ends, |t.log|, |t.completed|, t.pend, t.idx.consumed, cr);
  }

  function PartPay(t: Tx, cr: nat): Tx
    requires t.pend != [] && cr < t.pend[0].descNr
  {
    t.(pend := t.pend[0 := t.pend[0].(descNr := t.pend[0].descNr - cr)])
  }

  lemma PartPayKeeps(c: Conf, t: Tx, cr: nat)
    requires Core(c, t) && Settled(t.ends, |t.completed|, t.pend, t.idx.consumed, cr)
    requires t.pend != [] && cr < t.pend[0].descNr
    ensures var u := PartPay(t, cr); Core(c, u) && Settled(u.ends, |u.completed|, u.pend, u.idx.consumed, 0)
  {
    hide EndsInv, ByteInv, HeadInv, StallInv, Plain, IndexInv;
    var u := PartPay(t, cr);
    assert QueueInv(u.submitted, u.completed, u.pend, u.work);
  }

  /** Credits left over when the pass ends are the queue's again. */
  lemma CreditsLeft(c: Conf, t: Tx, cr: nat)
    requires Core(c, t) && Settled(t.ends, |t.completed|, t.pend, t.idx.consumed, cr)
    requires t.pend == [] || cr == 0
    ensures Inv(c, t.(credit := cr))
  {
  }

  // ----- submission and issue -----

  function Submit(t: Tx, r: Request): Tx {
    t.(work := t.work + [Cb(r, 0, 0)], workReqPend := t.workReqPend + 1, submitted := t.submitted + [r])
  }

  lemma SubmitQueue(t: Tx, r: Request)
    requires QueueInv(t.submitted, t.completed, t.pend, t.work) && WellFormed(r)
    ensures var u := Submit(t, r); QueueInv(u.submitted, u.completed, u.pend, u.work)
  {
  }

  /** A longer log and more submissions leave the finished requests as they are. */
  lemma BytesFrame(c: Conf, log: seq<Desc>, log': seq<Desc>, ends: seq<nat>,
                   submitted: seq<Request>, submitted': seq<Request>)
    requires ByteInv(c, log, ends, submitted) && log <= log' && submitted <= submitted'
    ensures ByteInv(c, log', ends, submitted')
  {
    forall g: nat | g < |ends|
      ensures Exact(c, log', ends, submitted', g)
    {
      assert Exact(c, log, ends, submitted, g);
      assert log'[Start(ends, g)..ends[g]] == log[Start(ends, g)..ends[g]];
    }
  }

  lemma SubmitKeeps(c: Conf, t: Tx, r: Request)
    requires Inv(c, t) && WellFormed(r)
    ensures Inv(c, Submit(t, r))
  {
    var u := Submit(t, r);
    SubmitQueue(t, r);
    BytesFrame(c, t.log, u.log, t.ends, t.submitted, u.submitted);
    if t.work == [] {
      assert u.work[0] == Cb(r, 0, 0);
      assert Wanted(c, r, 0, 0) == [];
    } else {
      assert u.work[0] == t.work[0];
    }
  }

  /** `ds` was written for the head of the work list and moves its next `n` bytes:
      the counters of `qdma_update_request` and the index updates that follow it. */
  function Extend(c: Conf, t: Tx, ds: seq<Desc>, n: nat): Tx
    requires t.work != [] && |ds| <= t.idx.avail
  {
    t.(log := t.log + ds,
       idx := t.idx.(pidx := RingIdxIncr(t.idx.pidx, |ds|, c.rngsz), avail := t.idx.avail - |ds|),
       work := t.work[0 := Progress(t.work[0], |ds|, n)])
  }

  function Progress(cb: Cb, descs: nat, bytes: nat): Cb {
    cb.(descNr := cb.descNr + descs, offset := cb.offset + bytes)
  }

  /** The list move of `qdma_update_request`, for a request issued to its last byte. */
  function Finish(t: Tx): Tx
    requires t.work != [] && t.workReqPend > 0
  {
    t.(work := t.work[1..], workReqPend := t.workReqPend - 1, pend := t.pend + [t.work[0]],
       ends := t.ends + [|t.log|])
  }

  ghost predicate CanIssue(c: Conf, t: Tx, ds: seq<Desc>, n: nat) {
    && t.work != [] && 0 < |ds| <= t.idx.avail
    && NextBytes(c, t.work[0], ds, n)
    && Plain(c, ds)
  }

  ghost predicate NextBytes(c: Conf, cb: Cb, ds: seq<Desc>, n: nat) {
    && cb.offset + n <= cb.req.count == Total(cb.req.sgl)
    && (n > 0 <==> cb.req.count > 0 && !Stalls(c, cb.req))
    && Moves(c, ds) == Wanted(c, cb.req, cb.offset, cb.offset + n)
  }

  lemma ExtendHead(c: Conf, before: seq<Desc>, cb: Cb, ds: seq<Desc>, n: nat)
    requires HeadExact(c, before, cb) && NextBytes(c, cb, ds, n)
    ensures HeadExact(c, before + ds, Progress(cb, |ds|, n))
  {
    MovesConcat(c, before, ds);
    WantedExtend(c, cb.req, 0, cb.offset, cb.offset + n);
  }

  lemma HeadDescsExtend(log: seq<Desc>, ends: seq<nat>, ds: seq<Desc>)
    requires EndsInv(ends, |log|)
    ensures EndsInv(ends, |log + ds|) && HeadDescs(log + ds, ends) == HeadDescs(log, ends) + ds
  {
  }

  lemma ExtendQueue(c: Conf, t: Tx, ds: seq<Desc>, n: nat)
    requires QueueInv(t.submitted, t.completed, t.pend, t.work) && t.work != [] && |ds| <= t.idx.avail
    ensures var u := Extend(c, t, ds, n); QueueInv(u.submitted, u.completed, u.pend, u.work)
  {
  }

  lemma ExtendIndex(rngsz: nat, i: Index, n: nat, k: nat)
    requires IndexInv(rngsz, i, n) && k <= i.avail
    ensures IndexInv(rngsz, i.(pidx := RingIdxIncr(i.pidx, k, rngsz), avail := i.avail - k), n + k)
  {
  }

  lemma ExtendKeeps(c: Conf, t: Tx, ds: seq<Desc>, n: nat)
    requires Inv(c, t) && CanIssue(c, t, ds, n)
    ensures var u := Extend(c, t, ds, n);
            && IndexInv(c.rngsz, u.idx, |u.log|)
            && QueueInv(u.submitted, u.completed, u.pend, u.work)
            && EndsInv(u.ends, |u.log|) && ByteInv(c, u.log, u.ends, u.submitted)
            && HeadExact(c, HeadDescs(u.log, u.ends), u.work[0])
            && LedgerInv(u.ends, |u.completed|, u.pend, u.idx.consumed, u.credit)
            && StallInv(c, u.ends, u.submitted, u.work) && Plain(c, u.log)
  {
    hide IndexInv, QueueInv, ByteInv, Moves, Wanted, LedgerInv;
    var u := Extend(c, t, ds, n);
    ExtendIndex(c.rngsz, t.idx, |t.log|, |ds|);
    ExtendQueue(c, t, ds, n);
    BytesFrame(c, t.log, u.log, t.ends, t.submitted, u.submitted);
    ExtendHead(c, HeadDescs(t.log, t.ends), t.work[0], ds, n);
    HeadDescsExtend(t.log, t.ends, ds);
  }

  lemma IssuePart(c: Conf, t: Tx, ds: seq<Desc>, n: nat)
    requires Inv(c, t) && CanIssue(c, t, ds, n) && t.work[0].offset + n < t.work[0].req.count
    ensures Inv(c, Extend(c, t, ds, n))
  {
    ExtendKeeps(c, t, ds, n);
  }

  lemma FinishQueue(submitted: seq<Request>, completed: seq<Completion>, pend: seq<Cb>, work: seq<Cb>)
    requires QueueInv(submitted, completed, pend, work) && work != []
    requires work[0].offset == work[0].req.count
    ensures QueueInv(submitted, completed, pend + [work[0]], work[1..])
  {
    var pend', work' := pend + [work[0]], work[1..];
    assert work[0].req == submitted[|completed| + |pend| + 0];
    forall i | 0 <= i < |work'|
      ensures work'[i].req == submitted[|completed| + |pend'| + i] && Fresh(work'[i])
    {
      assert work'[i] == work[i + 1];
    }
  }

  lemma FinishLedger(ends: seq<nat>, n: nat, done: nat, pend: seq<Cb>, consumed: nat, cr: nat, cb: Cb)
    requires EndsInv(ends, n) && LedgerInv(ends, done, pend, consumed, cr)
    requires cb.descNr == n - Start(ends, |ends|) > 0
    requires pend == [] ==> consumed < n
    ensures EndsInv(ends + [n], n) && LedgerInv(ends + [n], done, pend + [cb], consumed, cr)
  {
    var ends', pend' := ends + [n], pend + [cb];
    if pend != [] {
      assert pend'[0] == pend[0];
      forall i | 0 < i < |pend'|
        ensures ends'[done + i - 1] + pend'[i].descNr == ends'[done + i]
      {
        if i < |pend| { assert pend'[i] == pend[i]; }
      }
    }
  }

  lemma FinishBytes(c: Conf, log: seq<Desc>, ends: seq<nat>, submitted: seq<Request>, cb: Cb)
    requires EndsInv(ends, |log|) && ByteInv(c, log, ends, submitted) && Start(ends, |ends|) < |log|
    requires |ends| < |submitted| && cb.req == submitted[|ends|] && cb.offset == cb.req.count
    requires HeadExact(c, HeadDescs(log, ends), cb)
    ensures ByteInv(c, log, ends + [|log|], submitted)
  {
    var ends' := ends + [|log|];
    forall g: nat | g < |ends'|
      ensures Exact(c, log, ends', submitted, g)
    {
      if g < |ends| {
        assert Exact(c, log, ends, submitted, g);
        assert Start(ends', g) == Start(ends, g);
      } else {
        assert Start(ends', g) == Start(ends, |ends|);
        assert log[Start(ends', g)..ends'[g]] == HeadDescs(log, ends);
      }
    }
  }

  lemma FinishStall(c: Conf, t: Tx)
    requires StallInv(c, t.ends, t.submitted, t.work) && t.work != [] && t.workReqPend > 0
    requires |t.ends| < |t.submitted| && t.work[0].req == t.submitted[|t.ends|]
    requires t.work[0].offset == t.work[0].req.count
    requires |t.work| > 1 ==> Fresh(t.work[1])
    ensures var u := Finish(t); StallInv(c, u.ends, u.submitted, u.work)
  {
  }

  lemma FinishKeeps(c: Conf, t: Tx)
    requires ConfOk(c) && t.workReqPend == |t.work| && IndexInv(c.rngsz, t.idx, |t.log|)
    requires QueueInv(t.submitted, t.completed, t.pend, t.work)
    requires EndsInv(t.ends, |t.log|) && ByteInv(c, t.log, t.ends, t.submitted)
    requires LedgerInv(t.ends, |t.completed|, t.pend, t.idx.consumed, t.credit)
    requires t.work != [] && HeadExact(c, HeadDescs(t.log, t.ends), t.work[0])
    requires t.work[0].offset == t.work[0].req.count
    requires Start(t.ends, |t.ends|) < |t.log| && (t.pend == [] ==> t.idx.consumed < |t.log|)
    requires StallInv(c, t.ends, t.submitted, t.work) && Plain(c, t.log)
    ensures Inv(c, Finish(t))
  {
    hide IndexInv, ByteInv, Moves, Wanted;
    var u := Finish(t);
    assert t.work[0].req == t.submitted[|t.completed| + |t.pend| + 0];
    FinishQueue(t.submitted, t.completed, t.pend, t.work);
    FinishLedger(t.ends, |t.log|, |t.completed|, t.pend, t.idx.consumed, t.credit, t.work[0]);
    FinishBytes(c, t.log, t.ends, t.submitted, t.work[0]);
    FinishStall(c, t);
    assert HeadDescs(u.log, u.ends) == [];
    if u.work != [] {
      assert u.work[0] == t.work[1] && Fresh(t.work[1]);
      assert u.work[0].req == u.submitted[|u.completed| + |u.pend| + 0];
      FreshHead(c, u.work[0]);
    }
  }

  lemma FreshHead(c: Conf, cb: Cb)
    requires Fresh(cb) && WellFormed(cb.req)
    ensures HeadExact(c, [], cb)
  {
    assert Wanted(c, cb.req, 0, 0) == [];
  }

  lemma IssueLast(c: Conf, t: Tx, ds: seq<Desc>, n: nat)
    requires Inv(c, t) && CanIssue(c, t, ds, n) && t.work[0].offset + n >= t.work[0].req.count
    ensures Inv(c, Finish(Extend(c, t, ds, n)))
  {
    ExtendKeeps(c, t, ds, n);
    FinishKeeps(c, Extend(c, t, ds, n));
  }

  /** `qdma_update_request` with the index updates, in one step. */
  function Issue(c: Conf, t: Tx, ds: seq<Desc>, n: nat): Tx
    requires t.work != [] && |ds| <= t.idx.avail && t.workReqPend > 0
  {
    var u := Extend(c, t, ds, n);
    if t.work[0].offset + n >= t.work[0].req.count then Finish(u) else u
  }

  lemma IssueKeeps(c: Conf, t: Tx, ds: seq<Desc>, n: nat)
    requires Inv(c, t) && CanIssue(c, t, ds, n)
    ensures t.work != [] && |ds| <= t.idx.avail && t.workReqPend > 0
    ensures Inv(c, Issue(c, t, ds, n))
  {
    if t.work[0].offset + n >= t.work[0].req.count {
      IssueLast(c, t, ds, n);
    } else {
      IssuePart(c, t, ds, n);
    }
  }

  /** What a pass may rely on when it starts on the head of the work list. */
  lemma HeadFacts(c: Conf, t: Tx)
    requires Inv(c, t) && t.work != []
    ensures var cb := t.work[0];
            && ConfOk(c) && WellFormed(cb.req) && cb.offset <= cb.req.count
            && (cb.offset == cb.req.count ==> cb.req.count == 0)
            && t.idx.pidx < c.rngsz && t.idx.avail < c.rngsz
            && t.idx.consumed <= |t.log| && Plain(c, t.log)
            && t.idx.pidx == RingIdxIncr(t.idx.cidx, |t.log| - t.idx.consumed, c.rngsz)
            && |t.log| - t.idx.consumed + t.idx.avail == c.rngsz - 1
  {
    assert t.work[0].req == t.submitted[|t.completed| + |t.pend| + 0];
  }

  /** A request either has bytes in every entry or is the one empty entry. */
  lemma ResumePoint(r: Request, offset: nat, found: Result<(nat, nat)>)
    requires WellFormed(r) && offset <= r.count && (offset == r.count ==> r.count == 0)
    requires r.count == 0 ==> found == Ok((0, 0))
    requires r.count > 0 && found.Ok? ==>
      var (i, o) := found.value;
      i < |r.sgl| && Prefix(r.sgl, i) + o == offset && (o < r.sgl[i].len || o == 0)
    requires r.count > 0 && Positive(r.sgl) ==> (found.Ok? <==> offset < Total(r.sgl))
    ensures found.Ok?
    ensures var (i, o) := found.value;
            i < |r.sgl| && Prefix(r.sgl, i) + o == offset && o <= r.sgl[i].len &&
            (o < r.sgl[i].len || r.count == 0)
  {
    if r.count == 0 {
      assert Prefix(r.sgl, 0) == 0;
    } else {
      assert r.sgl[found.value.0].len > 0;
    }
  }

  lemma AdvancesSelf(t: Tx)
    ensures Advances(t, t)
  {
  }

  /** A completion pass only moves positions and callbacks on. */
  lemma AdvancesByCompletion(t: Tx, u: Tx)
    requires t.log == u.log && t.ends == u.ends && t.submitted == u.submitted && t.completed <= u.completed
    requires t.idx.consumed <= u.idx.consumed && t.idx.device <= u.idx.device && t.idx.posted <= u.idx.posted
    ensures Advances(t, u)
  {
  }

  lemma AdvancesBySubmit(t: Tx, r: Request)
    ensures Advances(t, Submit(t, r))
  {
  }

  /** The ring bounds what is issued beyond the staged index, whatever the device does. */
  lemma SoftFacts(c: Conf, t: Tx)
    requires Inv(c, t)
    ensures |t.log| < t.idx.soft + c.rngsz
  {
  }

  lemma AdvancesMeans(t: Tx, u: Tx)
    requires Advances(t, u)
    ensures |t.log| <= |u.log| && t.idx.posted <= u.idx.posted
    ensures t.idx.consumed <= u.idx.consumed && t.idx.device <= u.idx.device
  {
  }

  // ----- termination of the issue loop -----

  /** Requests waiting plus bytes still to be issued for them. */
  function Backlog(work: seq<Cb>): nat {
    if work == [] then 0
    else 1 + (if work[0].offset < work[0].req.count then work[0].req.count - work[0].offset else 0) + Backlog(work[1..])
  }

  /** A pass retires the head or issues at least one byte of it, unless the head is a
      streaming request that cannot move; then the pass changes nothing but its count of
      descriptors. */
  lemma IssueShrinksBacklog(c: Conf, t: Tx, ds: seq<Desc>, n: nat)
    requires Inv(c, t) && CanIssue(c, t, ds, n)
    ensures t.workReqPend > 0
    ensures var work := Issue(c, t, ds, n).work;
            && (Backlog(work) < Backlog(t.work) <==> !Stalls(c, t.work[0].req))
            && Backlog(work) <= Backlog(t.work)
            && (Stalls(c, t.work[0].req) ==> work == t.work[0 := Progress(t.work[0], |ds|, 0)])
  {
    var u := Extend(c, t, ds, n);
    assert u.work[1..] == t.work[1..];
  }
}
