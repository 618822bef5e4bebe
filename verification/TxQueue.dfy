/** The descriptor queue of the driver for memory-mapped transfers in both directions and for
    streaming host-to-card transfers: its fields, its locked regions and its lifecycle. */
module TxQueue {
  import opened Bits
  import opened Ring
  import opened ScatterGather
  import opened TxModel
  import opened TxSteps

  datatype QState = Disabled | Enabled | Online

  /** Descriptor engine modes of a device (qdma_access_export.h:240-247). */
  datatype EngineMode = InternalAndBypass | BypassOnly | InternalOnly

  class DescQueue {
    const conf: Conf
    /** Whether the `n`-th doorbell write succeeds: the hardware's choice, for every write. */
    const bells: nat -> bool
    var state: QState
    var qStopWait: bool
    var procReqRunning: bool
    var pendListEmpty: bool

    var ring: array<Desc>
    var pidx: nat
    var cidx: nat
    var avail: nat
    var credit: nat
    var workReqPend: nat
    var work: seq<Cb>
    var pend: seq<Cb>
    var pidxInfo: nat
    var rung: nat

    // shared with the device: the doorbell register and the status writeback
    var hwPidx: nat
    var hwCidx: nat

    // the run since the queue was started
    ghost var log: seq<Desc>
    ghost var ends: seq<nat>
    ghost var submitted: seq<Request>
    ghost var completed: seq<Completion>
    ghost var consumed: nat
    ghost var device: nat
    ghost var posted: nat
    ghost var soft: nat

    ghost function View(): Tx
      reads this
    {
      Tx(Index(pidx, cidx, avail, pidxInfo, hwPidx, hwCidx, consumed, device, posted, soft),
         credit, workReqPend, work, pend, log, ends, submitted, completed)
    }

    /** The slots between the indices still hold the descriptors that were written there. */
    ghost predicate InFlightIntact()
      reads this, ring
    {
      && ring.Length == conf.rngsz && consumed <= |log| && Holds(ring[..], cidx, log[consumed..])
      && LapStart(ring[..], pidx, log)
    }

    /** A running queue with its lock held. */
    ghost predicate Running()
      reads this, ring
    {
      state == Online && Inv(conf, View()) && InFlightIntact()
    }

    /** The invariant whenever the lock is free: a running queue that claims to have nothing
        pending has nothing in flight, and a queue that is not running owes no callback. */
    ghost predicate Valid()
      reads this, ring
    {
      && conf.rngsz > 0 && (conf.st ==> !conf.c2h)
      && (state == Online ==> Running() && (pendListEmpty ==> consumed == |log|))
      && (state != Online ==> work == [] && pend == [] && !qStopWait && CalledBack(submitted, completed))
    }

    /** A queue as `qdma_queue_add` leaves it. */
    constructor (c: Conf, outcomes: nat -> bool)
      requires c.rngsz > 0 && (c.st ==> !c.c2h)
      ensures Valid() && conf == c && bells == outcomes && state == Enabled
      ensures !procReqRunning && submitted == [] && completed == [] && rung == 0
    {
      conf, bells, rung := c, outcomes, 0;
      state, qStopWait, procReqRunning, pendListEmpty := Enabled, false, false, true;
      ring := new Desc[0];
      pidx, cidx, avail, credit, workReqPend, pidxInfo, hwPidx, hwCidx := 0, 0, 0, 0, 0, 0, 0, 0;
      work, pend, log, ends, submitted, completed := [], [], [], [], [], [];
      consumed, device, posted, soft := 0, 0, 0, 0;
    }

    /** A device of the newer soft IP refuses a queue that its engine cannot serve. */
    predicate Unsupported(checksModes: bool, mode: EngineMode) {
      checksModes && (mode == BypassOnly || (conf.descBypass && mode == InternalOnly))
    }

    /** The state, engine and aperture checks of `qdma_queue_start`; `checksModes` says whether
        the device is an EQDMA soft IP of release 2020.2 or later. */
    method CheckStart(checksModes: bool, mode: EngineMode) returns (rv: int)
      ensures rv == -EINVAL <==> state != Enabled || Unsupported(checksModes, mode)
      ensures rv == 0 <==> state == Enabled && !Unsupported(checksModes, mode) &&
                           (conf.apertureSize == 0 || IsPow2(conf.apertureSize))
      ensures rv == 0 || rv == -EINVAL || rv == -ERANGE
    {
      if state != Enabled {
        return -EINVAL;
      }
      if checksModes {
        if mode == BypassOnly {
          return -EINVAL;
        }
        if conf.descBypass {
          if mode == InternalOnly {
            return -EINVAL;
          }
        }
      }
      if conf.apertureSize != 0 {
        AndPredecessor(conf.apertureSize);
        if And(conf.apertureSize, conf.apertureSize - 1) != 0 {
          return -ERANGE;
        }
      }
      return 0;
    }

    /** `qdma_queue_start`: the checks, the reset of the ring, and online. `setup` is the outcome
        of completing the configuration, allocating resources and programming the hardware. */
    method Start(checksModes: bool, mode: EngineMode, setup: int) returns (rv: int)
      requires Valid()
      modifies `state, `pidx, `cidx, `avail, `credit, `workReqPend, `pidxInfo, `hwPidx, `hwCidx, `pendListEmpty,
               `ring, `log, `ends, `submitted, `completed, `consumed, `device, `posted, `soft
      ensures Valid()
      ensures rv == 0 <==> old(state) == Enabled && !Unsupported(checksModes, mode) &&
                           (conf.apertureSize == 0 || IsPow2(conf.apertureSize)) && setup == 0
      ensures rv == 0 ==> state == Online && fresh(ring) && View() == Init(conf.rngsz) && pendListEmpty
      ensures rv != 0 && rv == setup ==> state == old(state)
      ensures rv != 0 && rv != setup ==> unchanged(this) && (rv == -EINVAL || (rv == -ERANGE && state == Enabled))
    {
      hide Inv, Holds, IsPow2, CalledBack, LapStart, Unsupported;
      rv := CheckStart(checksModes, mode);
      if rv != 0 {
        return rv;
      }
      if setup != 0 {
        ConfigComplete();
        return setup;
      }
      InitInv(conf);
      GoOnline();
      HoldsNothing(ring[..]);
      NewLap(ring[..]);
    }

    /** `qdma_descq_config_complete`: nothing issued, the whole ring but one slot available. */
    method ConfigComplete()
      requires conf.rngsz > 0
      modifies `pidx, `cidx, `avail, `credit, `workReqPend, `pidxInfo, `hwPidx, `hwCidx, `pendListEmpty
      ensures Index(pidx, cidx, avail, pidxInfo, hwPidx, hwCidx, 0, 0, 0, 0) == Init(conf.rngsz).idx
      ensures credit == 0 && workReqPend == 0 && pendListEmpty
    {
      avail := conf.rngsz - 1;
      pendListEmpty := true;
      pidx, cidx, credit, workReqPend, pidxInfo, hwPidx, hwCidx := 0, 0, 0, 0, 0, 0, 0;
    }

    /** The ring as allocated, and a new run. */
    method AllocRing()
      modifies `ring, `log, `ends, `submitted, `completed, `consumed, `device, `posted, `soft
      ensures fresh(ring) && ring.Length == conf.rngsz
      ensures log == [] && ends == [] && submitted == [] && completed == []
      ensures consumed == 0 && device == 0 && posted == 0 && soft == 0
    {
      ring := new Desc[conf.rngsz](_ => EMPTY_SLOT);
      log, ends, submitted, completed := [], [], [], [];
      consumed, device, posted, soft := 0, 0, 0, 0;
    }

    method GoOnline()
      requires state == Enabled && conf.rngsz > 0 && work == [] && pend == [] && !qStopWait && ConfOk(conf)
      modifies `state, `pidx, `cidx, `avail, `credit, `workReqPend, `pidxInfo, `hwPidx, `hwCidx, `pendListEmpty,
               `ring, `log, `ends, `submitted, `completed, `consumed, `device, `posted, `soft
      ensures state == Online && fresh(ring) && ring.Length == conf.rngsz && View() == Init(conf.rngsz) && pendListEmpty
    {
      hide Inv;
      ConfigComplete();
      AllocRing();
      state := Online;
    }

    /** `qdma_request_submit` for a request with a completion callback: the request joins the work
        list and the list is processed; `inner`, which the caller never sees, is how that went. */
    method SubmitRequest(r: Request, write: bool) returns (rv: int, ghost inner: int)
      requires Valid() && WellFormed(r)
      modifies this, ring
      ensures Valid() && ring == old(ring) && state == old(state) && qStopWait == old(qStopWait)
      ensures rv == 0 <==> old(state) == Online && write == !conf.c2h
      ensures rv == 0 ==> submitted == old(submitted) + [r] && Advances(old(View()), View())
      ensures rv != 0 ==> rv == -EINVAL && unchanged(this, ring)
      ensures rv == 0 && !qStopWait && !old(procReqRunning) ==>
                Processed(Submit(old(View()), r), View()) &&
                Ended(Submit(old(View()), r), View(), inner, procReqRunning, rung)
      ensures rv == 0 && !qStopWait && old(procReqRunning) ==> View() == Submit(old(View()), r)
      ensures rv == 0 && qStopWait ==>
                && log == old(log) && work == old(work) + [Cb(r, 0, 0)] && consumed == device
                && BellAfterCompletion(Submit(old(View()), r), old(rung), View(), rung)
      ensures qStopWait || old(procReqRunning) ==> procReqRunning == old(procReqRunning)
    {
      inner := 0;
      if write == conf.c2h || state != Online {
        return -EINVAL, inner;
      }
      hide Inv, Holds, LapStart, WellFormed, Processed, Ended, BellAfterCompletion;
      ghost var t := View();
      Enqueue(r);
      AdvancesBySubmit(t, r);
      ghost var u := View();
      var ignored := ProcRequest();
      AdvancesTrans(t, u, View());
      return 0, ignored;
    }

    /** The locked region that queues a request. */
    method Enqueue(r: Request)
      requires Valid() && WellFormed(r) && state == Online
      modifies `work, `workReqPend, `submitted
      ensures Valid() && View() == Submit(old(View()), r)
    {
      hide Inv, Holds;
      ghost var t := View();
      SubmitKeeps(conf, t, r);
      work := work + [Cb(r, 0, 0)];
      workReqPend := workReqPend + 1;
      submitted := submitted + [r];
      assert View() == Submit(t, r);
    }

    /** First locked region of `qdma_queue_stop`. */
    method StopBegin() returns (rv: int)
      requires Valid()
      modifies `qStopWait
      ensures Valid() && (rv == 0 <==> state == Online) && (rv == 0 ==> qStopWait)
      ensures rv != 0 ==> rv == -EINVAL && qStopWait == old(qStopWait)
    {
      hide Inv, Holds;
      if state != Online {
        return -EINVAL;
      }
      qStopWait := true;
      return 0;
    }

    /** Second locked region of `qdma_queue_stop`: every request that is still queued is called
        back with -ENXIO, those already issued first. */
    method StopFinish()
      requires Valid() && state == Online
      modifies `state, `qStopWait, `pend, `work, `workReqPend, `completed
      ensures Valid() && state == Enabled
      ensures pend == [] && work == [] && workReqPend == 0
      ensures completed == old(completed) + Aborted(old(pend)) + Aborted(old(work))
      ensures CalledBack(submitted, completed)
    {
      hide Inv, Holds, Aborted, CalledBack, LapStart;
      StopOrder(conf, View());
      state := Enabled;
      qStopWait := false;
      AbortPending();
      AbortWork();
    }

    method AbortPending()
      modifies `pend, `completed
      ensures pend == [] && completed == old(completed) + Aborted(old(pend))
    {
      while pend != []
        invariant old(completed) + Aborted(old(pend)) == completed + Aborted(pend)
        decreases |pend|
      {
        var cb := pend[0];
        pend := pend[1..];
        completed := completed + [Completion(cb.req, 0, -ENXIO)];
      }
    }

    method AbortWork()
      requires workReqPend == |work|
      modifies `work, `workReqPend, `completed
      ensures work == [] && workReqPend == 0 && completed == old(completed) + Aborted(old(work))
    {
      while work != []
        invariant workReqPend == |work|
        invariant old(completed) + Aborted(old(work)) == completed + Aborted(work)
        decreases |work|
      {
        var cb := work[0];
        work := work[1..];
        workReqPend := workReqPend - 1;
        completed := completed + [Completion(cb.req, 0, -ENXIO)];
      }
    }

    /** The device consumes `n` more descriptors of the window it was given. */
    method DeviceConsumes(n: nat)
      requires Running() && n <= posted - device
      modifies `hwCidx, `device
      ensures Running() && View() == Consume(conf, old(View()), n)
    {
      hide Core, Inv, Holds, LapStart;
      ghost var t := View();
      ConsumeKeeps(conf, t, n);
      hwCidx := RingIdxIncr(hwCidx, n, conf.rngsz);
      device := device + n;
      assert View() == Consume(conf, t, n);
    }

    /** The device moves on inside its window and the driver reads where it has got to. */
    method ReadWriteback() returns (c: nat)
      requires Running()
      modifies `hwCidx, `device
      ensures Running() && old(device) <= device && c == hwCidx
    {
      hide Core, Inv, Holds, LapStart;
      ConsumeKeeps(conf, View(), 0);
      var n: nat :| 0 <= n <= RingIdxDelta(hwPidx, hwCidx, conf.rngsz);
      DeviceConsumes(n);
      c := hwCidx;
    }

    /** The doorbell write of `queue_pidx_update`. */
    method WriteDoorbell() returns (ok: bool)
      requires Running()
      modifies `hwPidx, `posted, `rung
      ensures Running() && rung == old(rung) + 1 && ok == bells(old(rung))
      ensures View() == if ok then Post(old(View())) else old(View())
      ensures old(posted) <= posted
    {
      hide Core, Inv, Holds, LapStart;
      ok := bells(rung);
      rung := rung + 1;
      if ok {
        ghost var t := View();
        PostKeeps(conf, t);
        hwPidx := pidxInfo;
        posted := soft;
        assert View() == Post(t);
      }
    }

    /** `qdma_sgt_req_done` without an error, for the head of the pending list. */
    method ReqDone()
      requires pend != []
      modifies `pend, `completed, `pendListEmpty
      ensures View() == Retire(old(View()))
      ensures pendListEmpty <==> avail == conf.rngsz - 1
    {
      var cb := pend[0];
      pend := pend[1..];
      var error := 0;
      if cb.offset != cb.req.count {
        error := -EINVAL;
      }
      completed := completed + [Completion(cb.req, cb.offset, error)];
      pendListEmpty := avail == conf.rngsz - 1;
    }

    /** One turn of the loop that hands out `cr` credits to the pending requests in order. */
    method PayHead(cr: nat) returns (left: nat)
      requires Core(conf, View()) && Settled(ends, |completed|, pend, consumed, cr) && pend != []
      modifies `pend, `completed, `pendListEmpty
      ensures Core(conf, View()) && Settled(ends, |completed|, pend, consumed, left)
      ensures old(completed) <= completed
      ensures pendListEmpty == if |completed| == |old(completed)| then old(pendListEmpty) else consumed == |log|
      ensures left == 0 || |pend| < |old(pend)|
    {
      hide Core;
      ghost var t := View();
      var nr := pend[0].descNr;
      if cr >= nr {
        RetireKeeps(conf, t, cr);
        left := cr - nr;
        ReqDone();
      } else {
        PartPayKeeps(conf, t, cr);
        pend := pend[0 := pend[0].(descNr := nr - cr)];
        assert View() == PartPay(t, cr);
        left := 0;
      }
    }

    method HandOutCredits()
      requires state == Online && Core(conf, View()) && InFlightIntact()
      requires Settled(ends, |completed|, pend, consumed, credit)
      modifies `pend, `completed, `pendListEmpty, `credit
      ensures Running()
      ensures old(completed) <= completed
      ensures credit > 0 ==> pend == []
      ensures pendListEmpty == if |completed| == |old(completed)| then old(pendListEmpty) else consumed == |log|
    {
      hide Core, Inv, Settled;
      var cr := credit;
      while pend != []
        invariant Core(conf, View()) && Settled(ends, |completed|, pend, consumed, cr)
        invariant old(completed) <= completed
        invariant pendListEmpty == if |completed| == |old(completed)| then old(pendListEmpty) else consumed == |log|
        decreases |pend|
      {
        cr := PayHead(cr);
        if cr == 0 {
          break;
        }
      }
      CreditsLeft(conf, View(), cr);
      credit := cr;
    }

    /** The counter updates of a completion pass. */
    method TakeCredits()
      requires Running()
      modifies `cidx, `avail, `credit, `consumed
      ensures state == Online && Core(conf, View()) && InFlightIntact()
      ensures Settled(ends, |completed|, pend, consumed, credit)
      ensures consumed == device && consumed >= old(consumed) && avail >= old(avail)
    {
      hide Core, Inv, Settled, Holds, RingIdxIncr, ConfOk, Credits, LapStart;
      ghost var t := View();
      AbsorbKeeps(conf, t);
      HoldsAdvance(ring[..], cidx, log, consumed, device - consumed);
      var cr: nat := Credits(conf.rngsz, cidx, hwCidx);
      cidx := hwCidx;
      avail := avail + cr;
      credit := credit + cr;
      consumed := consumed + cr;
      assert View() == Absorb(t, cr);
    }

    lemma RunningFacts()
      requires Running()
      ensures consumed <= device <= posted <= soft <= |log|
      ensures pidx == RingIdxIncr(cidx, |log| - consumed, conf.rngsz)
      ensures pidx == cidx ==> consumed == |log|
      ensures hwCidx == cidx <==> consumed == device
      ensures state == Online && |log| - consumed + avail == conf.rngsz - 1
      ensures workReqPend == |work|
    {
    }

    /** What a completion pass that leads from `t` to `u` does to the doorbell, `n` writes having
        gone before: one forced write if and only if the device has moved on. */
    ghost predicate BellAfterCompletion(t: Tx, n: nat, u: Tx, m: nat) {
      && u.idx.soft == t.idx.soft
      && if u.idx.consumed == t.idx.consumed then m == n && u.idx.posted == t.idx.posted
         else m == n + 1 && u.idx.posted == if bells(n) then t.idx.soft else t.idx.posted
    }

    /** The part of a completion pass behind its early exits: credits, retirement, doorbell. */
    method TakeProgress()
      requires Running() && consumed < device
      modifies `cidx, `avail, `credit, `consumed, `pend, `completed, `pendListEmpty, `hwPidx, `posted, `rung
      ensures Running() && Advances(old(View()), View()) && avail >= old(avail)
      ensures BellAfterCompletion(old(View()), old(rung), View(), rung)
      ensures consumed == device && (credit > 0 ==> pend == [])
      ensures pendListEmpty == if |completed| == |old(completed)| then old(pendListEmpty) else consumed == |log|
    {
      hide Core, Inv, Settled, Holds, Advances, Running, InFlightIntact, LapStart;
      ghost var t := View();
      TakeCredits();
      HandOutCredits();
      var ok := WriteDoorbell();
      AdvancesByCompletion(t, View());
      RunningFacts();
    }

    /** `descq_mm_n_h2c_cmpl_status`: take over the device's progress and complete requests. */
    method CmplStatus()
      requires Running()
      modifies `cidx, `avail, `credit, `consumed, `pend, `completed, `pendListEmpty,
               `hwCidx, `device, `hwPidx, `posted, `rung
      ensures Running() && Advances(old(View()), View()) && avail >= old(avail)
      ensures BellAfterCompletion(old(View()), old(rung), View(), rung)
      ensures consumed == device && (consumed > old(consumed) && credit > 0 ==> pend == [])
      ensures consumed == old(consumed) ==> pend == old(pend) && completed == old(completed) && credit == old(credit)
      ensures pendListEmpty == if |completed| == |old(completed)| then old(pendListEmpty) else consumed == |log|
    {
      hide Core, Inv, Settled, Holds, Advances, Running, InFlightIntact, LapStart;
      ghost var t := View();
      AdvancesByCompletion(t, t);
      RunningFacts();
      if pidx == cidx {
        return;
      }
      var cidxHw := ReadWriteback();
      AdvancesByCompletion(t, View());
      RunningFacts();
      if cidxHw == cidx {
        return;
      }
      ghost var u := View();
      TakeProgress();
      AdvancesTrans(t, u, View());
    }

    // ----- issuing descriptors, memory-mapped -----

    /** Where the next descriptor of an entry starts and how long it is: at most what is left
        of the entry, the aperture, and the rest of the keyhole window. */
    method NextChunk(r: Request, ghost pos: nat, epAddr: nat, tlen: nat, aperture: nat) returns (ep: nat, len: nat)
      requires ConfOk(conf) && !conf.st && EpCursor(conf, r, pos, epAddr)
      requires aperture == if conf.apertureSize > 0 then conf.apertureSize else QDMA_DESC_BLEN_MAX
      ensures tlen > 0 ==> len > 0
      ensures ep == EpAt(conf, r, pos)
      ensures len == Min(tlen, if conf.apertureSize > 0 then conf.apertureSize - pos % conf.apertureSize
                               else 0x0FFF_FFFF)
    {
      var epAddrMax := r.epAddr + aperture - 1;
      len := if tlen < aperture then tlen else aperture;
      ep := epAddr;
      if conf.apertureSize > 0 {
        if ep > epAddrMax {
          ep := r.epAddr;
        }
        if ep + len > epAddrMax {
          len := epAddrMax - ep + 1;
        }
      }
    }

    /** Write one descriptor at slot `p` and step to the next slot. */
    method PutDesc(p: nat, d: Desc) returns (next: nat)
      requires ring.Length == conf.rngsz && p < ring.Length
      modifies ring
      ensures ring[..] == old(ring[..])[p := d]
      ensures next == RingIdxIncr(p, 1, conf.rngsz)
    {
      ring[p] := d;
      next := p + 1;
      if next == conf.rngsz {
        next := 0;
      }
    }

    /** One entry of the list, from byte `o` on: the do-while loop of the issue loop. */
    method IssueSegment(r: Request, i: nat, o: nat, epIn: nat, pIn: nat, room: nat,
                        ghost before: seq<Desc>, ghost start: nat, ghost ds0: seq<Desc>, ghost es0: seq<nat>,
                        ghost from: nat)
      returns (p: nat, ep: nat, cnt: nat, moved: nat, tlen: nat, last: nat, ghost ds: seq<Desc>, ghost es: seq<nat>)
      requires ConfOk(conf) && !conf.st && ring.Length == conf.rngsz
      requires i < |r.sgl| && o <= r.sgl[i].len && (o < r.sgl[i].len || r.sgl[i].len == 0)
      requires r.sgl[i].len == 0 ==> r.count == 0
      requires Written(conf, before, ring[..], start, ds0, r, from, Prefix(r.sgl, i) + o)
      requires Chunks(conf, r, ds0, es0, from)
      requires EpCursor(conf, r, Prefix(r.sgl, i) + o, epIn)
      requires 0 < room && |ds0| + room < conf.rngsz && pIn == RingIdxIncr(start, |ds0|, conf.rngsz)
      modifies ring
      ensures Written(conf, before, ring[..], start, ds, r, from, Prefix(r.sgl, i) + o + moved)
      ensures Chunks(conf, r, ds, es, from)
      ensures EpCursor(conf, r, Prefix(r.sgl, i) + o + moved, ep)
      ensures 0 < cnt <= room && |ds| == |ds0| + cnt
      ensures p == RingIdxIncr(start, |ds|, conf.rngsz) && last == RingIdxIncr(start, |ds| - 1, conf.rngsz)
      ensures o + moved + tlen == r.sgl[i].len && (tlen == 0 || cnt == room)
      ensures o < r.sgl[i].len ==> moved > 0
    {
      hide Written, EpCursor, Moves, Wanted, DescMoves, Prefix, Chunks, Chunk;
      var aperture := if conf.apertureSize > 0 then conf.apertureSize else QDMA_DESC_BLEN_MAX;
      ghost var pos0 := Prefix(r.sgl, i) + o;
      var src := r.sgl[i].addr + o;
      tlen, moved, cnt, ep, p, ds, es := r.sgl[i].len - o, 0, 0, epIn, pIn, ds0, es0;
      last := p;
      var more := true;
      while more
        invariant Written(conf, before, ring[..], start, ds, r, from, pos0 + moved) && Chunks(conf, r, ds, es, from)
        invariant EpCursor(conf, r, pos0 + moved, ep)
        invariant |ds| == |ds0| + cnt && cnt <= room && p == RingIdxIncr(start, |ds|, conf.rngsz)
        invariant o + moved + tlen == r.sgl[i].len && src == r.sgl[i].addr + o + moved
        invariant more ==> cnt < room && (tlen > 0 || r.sgl[i].len == 0)
        invariant !more ==> cnt > 0 && (tlen == 0 || cnt == room) && last == RingIdxIncr(start, |ds| - 1, conf.rngsz)
        invariant cnt > 0 && o < r.sgl[i].len ==> moved > 0
        decreases more, tlen
      {
        ghost var pos, now := pos0 + moved, ring[..];
        var at, len := NextChunk(r, pos, ep, tlen, aperture);
        last := p;
        var d := if conf.c2h then MmDesc(at, src, len, false, false) else MmDesc(src, at, len, false, false);
        MmDescMoves(conf, r, d, i, o + moved, pos, at);
        ChunkBuilt(conf, r, d, i, o + moved, pos);
        WrittenLength(conf, before, now, start, ds, r, from, pos);
        ChunksAppend(conf, r, ds, es, from, d, i);
        WriteOne(conf, before, now, start, ds, r, from, pos, d);
        p := PutDesc(p, d);
        ds, es := ds + [d], es + [i];
        ep := at + len;
        moved := moved + len;
        src := src + len;
        tlen := tlen - len;
        cnt := cnt + 1;
        more := cnt != room && tlen != 0;
      }
    }

    /** The for loop over the entries, from byte `o0` of entry `i0` on. */
    method IssueEntries(r: Request, i0: nat, o0: nat, ep0: nat, descMax: nat)
      returns (p: nat, cnt: nat, dataCnt: nat, last: nat, ghost ds: seq<Desc>, ghost es: seq<nat>)
      requires ConfOk(conf) && !conf.st && ring.Length == conf.rngsz && pidx < conf.rngsz
      requires WellFormed(r) && 0 < descMax < conf.rngsz
      requires i0 < |r.sgl| && o0 <= r.sgl[i0].len && (o0 < r.sgl[i0].len || r.count == 0)
      requires EpCursor(conf, r, Prefix(r.sgl, i0) + o0, ep0)
      modifies ring
      ensures Written(conf, old(ring[..]), ring[..], pidx, ds, r, Prefix(r.sgl, i0) + o0,
              Prefix(r.sgl, i0) + o0 + dataCnt)
      ensures Chunks(conf, r, ds, es, Prefix(r.sgl, i0) + o0)
      ensures 0 < cnt == |ds| <= descMax
      ensures p == RingIdxIncr(pidx, cnt, conf.rngsz) && last == RingIdxIncr(pidx, cnt - 1, conf.rngsz)
      ensures Prefix(r.sgl, i0) + o0 + dataCnt == r.count || cnt == descMax
      ensures dataCnt > 0 || r.count == 0
    {
      hide Written, Chunk;
      ghost var before, from := ring[..], Prefix(r.sgl, i0) + o0;
      WriteNone(conf, before, pidx, r, i0, o0);
      var i, sgOffset, ep := i0, o0, ep0;
      p, cnt, dataCnt, last, ds, es := pidx, 0, 0, pidx, [], [];
      while i < |r.sgl| && cnt < descMax
        invariant i0 <= i <= |r.sgl| && (i == i0 <==> cnt == 0)
        invariant sgOffset == if i == i0 then o0 else 0
        invariant cnt == |ds| <= descMax && p == RingIdxIncr(pidx, cnt, conf.rngsz)
        invariant cnt > 0 ==> last == RingIdxIncr(pidx, cnt - 1, conf.rngsz)
        invariant Written(conf, before, ring[..], pidx, ds, r, from, from + dataCnt) && Chunks(conf, r, ds, es, from)
        invariant EpCursor(conf, r, from + dataCnt, ep)
        invariant cnt == descMax || from + dataCnt == Prefix(r.sgl, i) + sgOffset
        invariant cnt > 0 ==> dataCnt > 0 || r.count == 0
        decreases |r.sgl| - i
      {
        var moved, c, tlen;
        p, ep, c, moved, tlen, last, ds, es :=
          IssueSegment(r, i, sgOffset, ep, p, descMax - cnt, before, pidx, ds, es, from);
        cnt := cnt + c;
        dataCnt := dataCnt + moved;
        sgOffset := 0;
        i := i + 1;
      }
    }

    /** Setting end- and start-of-packet on the first and last descriptor of a pass. */
    method MarkEnds(first: nat, last: nat, ghost ds: seq<Desc>, ghost before: seq<Desc>)
      requires ring.Length == conf.rngsz && ds != [] && |ds| < ring.Length
      requires Holds(ring[..], first, ds) && Beyond(before, ring[..], first, |ds|)
      requires last == RingIdxIncr(first, |ds| - 1, conf.rngsz)
      modifies ring
      ensures Holds(ring[..], first, Marked(ds)) && Beyond(before, ring[..], first, |ds|)
    {
      hide Holds, Beyond;
      ghost var end := ds[|ds| - 1].(eop := true);
      HoldsAt(ring[..], first, ds, |ds| - 1);
      HoldsAt(ring[..], first, ds, 0);
      HoldsUpdate(before, ring[..], first, ds, |ds| - 1, end);
      ghost var now, ended := ring[..][last := end], ds[|ds| - 1 := end];
      ring[last] := ring[last].(eop := true);
      assert ring[..] == now;
      HoldsAt(now, first, ended, 0);
      HoldsUpdate(before, now, first, ended, 0, ended[0].(sop := true));
      ring[first] := ring[first].(sop := true);
      assert ring[..] == now[first := ended[0].(sop := true)];
    }

    /** Moving the head of the work list to the tail of the pending list. */
    method MoveToPending()
      requires work != [] && workReqPend > 0
      modifies `work, `pend, `workReqPend, `ends
      ensures View() == Finish(old(View()))
    {
      var cb := work[0];
      work := work[1..];
      workReqPend := workReqPend - 1;
      pend := pend + [cb];
      ends := ends + [|log|];
    }

    /** `qdma_update_request` and the index updates after a pass. */
    method UpdateRequest(p: nat, numDesc: nat, dataCnt: nat, ghost ds: seq<Desc>)
      requires Inv(conf, View()) && CanIssue(conf, View(), ds, dataCnt)
      requires numDesc == |ds| && p == RingIdxIncr(pidx, numDesc, conf.rngsz)
      modifies `work, `pend, `workReqPend, `pidx, `avail, `log, `ends
      ensures Inv(conf, View())
      ensures old(workReqPend) > 0 && View() == Issue(conf, old(View()), ds, dataCnt)
    {
      hide Inv, CanIssue;
      ghost var t := View();
      IssueKeeps(conf, t, ds, dataCnt);
      var cb := work[0].(descNr := work[0].descNr + numDesc, offset := work[0].offset + dataCnt);
      work := work[0 := cb];
      log := log + ds;
      pidx := p;
      avail := avail - numDesc;
      assert View() == Extend(conf, t, ds, dataCnt);
      if cb.offset >= cb.req.count {
        MoveToPending();
      }
    }

    /** One pass of the memory-mapped issue loop: turn as much of the head request into
        descriptors as there is room for. */
    method IssuePassMm() returns (cnt: nat, dataCnt: nat, ghost ds: seq<Desc>, ghost es: seq<nat>)
      requires Running() && !conf.st && work != [] && avail > 0
      modifies ring, `work, `pend, `workReqPend, `pidx, `avail, `log, `ends
      ensures Running()
      ensures log == old(log) + ds && Framed(ds) && cnt == |ds| > 0
      ensures Chunks(conf, old(work[0].req), ds, es, old(work[0].offset))
      ensures CanIssue(conf, old(View()), ds, dataCnt) && old(workReqPend) > 0
      ensures View() == Issue(conf, old(View()), ds, dataCnt)
      ensures old(ends) <= ends && Backlog(work) < old(Backlog(work))
      ensures avail + cnt == old(avail) && (avail == 0 || work == old(work)[1..])
    {
      hide Inv, Written, Holds, Beyond, EpCursor, Moves, Wanted, Framed, Backlog, Marked, Chunks;
      ghost var t, before := View(), ring[..];
      HeadFacts(conf, t);
      var cb := work[0];
      var r := cb.req;
      ResumeEpCursor(conf, r, cb.offset);
      var found := FindOffset(r.sgl, r.count, cb.offset);
      ResumePoint(r, cb.offset, found);
      var (i, o) := found.value;
      var p, last;
      p, cnt, dataCnt, last, ds, es := IssueEntries(r, i, o, ResumeEp(conf, r, cb.offset), avail);
      PassDone(conf, before, ring[..], pidx, ds, r, cb.offset, cb.offset + dataCnt);
      MarkEnds(pidx, last, ds, before);
      BeyondWeaken(before, ring[..], pidx, cnt);
      ChunksMarked(conf, r, ds, es, cb.offset);
      ds := Marked(ds);
      CommitPass(p, cnt, dataCnt, ds, before);
    }

    /** The bookkeeping after a pass, with the ring already written. */
    method CommitPass(p: nat, cnt: nat, dataCnt: nat, ghost ds: seq<Desc>, ghost before: seq<Desc>)
      requires state == Online && Inv(conf, View()) && CanIssue(conf, View(), ds, dataCnt) && cnt == |ds|
      requires ring.Length == conf.rngsz == |before| && consumed <= |log|
      requires Holds(before, cidx, log[consumed..]) && LapStart(before, pidx, log)
      requires Holds(ring[..], pidx, ds) && Beyond(before, ring[..], pidx, cnt + 1)
      requires p == RingIdxIncr(pidx, cnt, conf.rngsz)
      requires work[0].offset + dataCnt == work[0].req.count || cnt == avail
      modifies `work, `pend, `workReqPend, `pidx, `avail, `log, `ends
      ensures Running()
      ensures old(workReqPend) > 0 && View() == Issue(conf, old(View()), ds, dataCnt)
      ensures log == old(log) + ds
      ensures old(ends) <= ends && avail + cnt == old(avail)
      ensures avail == 0 || work == old(work)[1..]
      ensures Backlog(work) <= old(Backlog(work))
      ensures Stalls(conf, old(work[0].req)) ==>
                && avail == 0 && work == old(work)[0 := Progress(old(work[0]), cnt, 0)]
                && Backlog(work) == old(Backlog(work))
      ensures !Stalls(conf, old(work[0].req)) ==> Backlog(work) < old(Backlog(work))
    {
      hide Inv, Holds, Beyond, Moves, Wanted, Backlog, LapStart, Plain;
      ghost var t := View();
      HeadFacts(conf, t);
      HoldsJoin(before, ring[..], cidx, log[consumed..], ds);
      LapGoesOn(before, ring[..], pidx, log, ds);
      IssueShrinksBacklog(conf, t, ds, dataCnt);
      assert log[consumed..] + ds == (log + ds)[consumed..];
      UpdateRequest(p, cnt, dataCnt, ds);
    }

    /** What a locked region that processes requests leaves alone. */
    ghost predicate Same(ring0: array<Desc>, state0: QState, stop0: bool, submitted0: seq<Request>)
      reads this
    {
      ring == ring0 && state == state0 && qStopWait == stop0 && submitted == submitted0
    }

    // ----- issuing descriptors, streaming -----

    /** Write one streaming descriptor at slot `p`; stepping to the next slot unmarks it, but
        wrapping to slot 0 does not. */
    method PutH2cDesc(p: nat, d: Desc) returns (next: nat)
      requires ring.Length == conf.rngsz && p < ring.Length
      modifies ring
      ensures ring[..] == PutH2c(old(ring[..]), p, d)
      ensures next == RingIdxIncr(p, 1, conf.rngsz)
    {
      ring[p] := d;
      next := p + 1;
      if next == conf.rngsz {
        next := 0;
      } else {
        ring[next] := ring[next].(sop := false, eop := false);
      }
    }

    /** One entry of the list, from byte `o` on. */
    method StreamSegment(r: Request, i: nat, o: nat, pIn: nat, room: nat, ghost before: seq<Desc>,
                         ghost start: nat, ghost ds0: seq<Desc>, ghost es0: seq<nat>, ghost from: nat)
      returns (p: nat, cnt: nat, moved: nat, tlen: nat, ghost ds: seq<Desc>, ghost es: seq<nat>)
      requires conf.st && ring.Length == conf.rngsz
      requires i < |r.sgl| && o <= r.sgl[i].len && (o < r.sgl[i].len || r.sgl[i].len == 0)
      requires r.sgl[i].len == 0 ==> r.count == 0
      requires Streamed(conf, before, ring[..], start, ds0, es0, r, from, Prefix(r.sgl, i) + o)
      requires Packets(conf, r, ds0, es0, from)
      requires 0 < room && |ds0| + room < conf.rngsz && start < conf.rngsz
      requires pIn == RingIdxIncr(start, |ds0|, conf.rngsz)
      modifies ring
      ensures Streamed(conf, before, ring[..], start, ds, es, r, from, Prefix(r.sgl, i) + o + moved)
      ensures Packets(conf, r, ds, es, from)
      ensures 0 < cnt <= room && |ds| == |ds0| + cnt && p == RingIdxIncr(start, |ds|, conf.rngsz)
      ensures o + moved + tlen == r.sgl[i].len && (tlen == 0 || cnt == room)
      ensures moved > 0 <==> o < r.sgl[i].len && H2cPktsz(r) > 0
      ensures es + EntriesFrom(r.sgl, i + 1, 0, H2cPktsz(r), room - cnt) ==
              es0 + EntriesFrom(r.sgl, i, o, H2cPktsz(r), room)
    {
      hide Streamed, PutH2c, Moves, Wanted, EntriesFrom, H2cPktsz, Packets, Packet;
      ghost var pos0 := Prefix(r.sgl, i) + o;
      var pktsz := H2cPktsz(r);
      var src := r.sgl[i].addr + o;
      tlen, moved, cnt, p, ds, es := r.sgl[i].len - o, 0, 0, pIn, ds0, es0;
      var more := true;
      while more
        invariant Streamed(conf, before, ring[..], start, ds, es, r, from, pos0 + moved)
        invariant Packets(conf, r, ds, es, from)
        invariant |ds| == |ds0| + cnt && cnt <= room && p == RingIdxIncr(start, |ds|, conf.rngsz)
        invariant o + moved + tlen == r.sgl[i].len && src == r.sgl[i].addr + o + moved
        invariant more ==> cnt < room && (tlen > 0 || r.sgl[i].len == 0)
        invariant !more ==> cnt > 0 && (tlen == 0 || cnt == room)
        invariant moved > 0 <==> cnt > 0 && o < r.sgl[i].len && pktsz > 0
        invariant more ==> es + EntriesFrom(r.sgl, i, o + moved, pktsz, room - cnt) ==
                           es0 + EntriesFrom(r.sgl, i, o, pktsz, room)
        invariant !more ==> es + EntriesFrom(r.sgl, i + 1, 0, pktsz, room - cnt) ==
                            es0 + EntriesFrom(r.sgl, i, o, pktsz, room)
        decreases room - cnt
      {
        ghost var pos, now := pos0 + moved, ring[..];
        var len := if tlen < pktsz then tlen else pktsz;
        var d := H2cDesc(src, len, len, true,
                         ring[p].sop || (conf.descBypass && i == 0),
                         ring[p].eop || (conf.descBypass && i == |r.sgl| - 1));
        H2cDescMoves(conf, r, d, i, o + moved, pos);
        PacketBuilt(r, d, i, o + moved, pos);
        StreamedLength(conf, before, now, start, ds, es, r, from, pos);
        PacketsAppend(conf, r, ds, es, from, d, i);
        StreamOne(conf, before, now, start, ds, es, r, from, pos, d, i);
        EntriesTurn(r.sgl, i, o + moved, pktsz, room - cnt, es);
        p := PutH2cDesc(p, d);
        ds, es := ds + [d], es + [i];
        moved := moved + len;
        src := src + len;
        tlen := tlen - len;
        cnt := cnt + 1;
        more := cnt != room && tlen != 0;
      }
    }

    /** The for loop over the entries, from byte `o0` of entry `i0` on. */
    method StreamEntries(r: Request, i0: nat, o0: nat, descMax: nat)
      returns (p: nat, cnt: nat, dataCnt: nat, ghost ds: seq<Desc>, ghost es: seq<nat>)
      requires conf.st && ring.Length == conf.rngsz && pidx < conf.rngsz
      requires WellFormed(r) && 0 < descMax < conf.rngsz
      requires i0 < |r.sgl| && o0 <= r.sgl[i0].len && (o0 < r.sgl[i0].len || r.count == 0)
      modifies ring
      ensures Streamed(conf, old(ring[..]), ring[..], pidx, ds, es, r,
                       Prefix(r.sgl, i0) + o0, Prefix(r.sgl, i0) + o0 + dataCnt)
      ensures Packets(conf, r, ds, es, Prefix(r.sgl, i0) + o0)
      ensures 0 < cnt == |ds| <= descMax
      ensures p == RingIdxIncr(pidx, cnt, conf.rngsz)
      ensures Prefix(r.sgl, i0) + o0 + dataCnt == r.count || cnt == descMax
      ensures r.count > 0 ==> (dataCnt > 0 <==> H2cPktsz(r) > 0)
      ensures es == EntriesFrom(r.sgl, i0, o0, H2cPktsz(r), descMax)
    {
      hide Streamed, Moves, Wanted, EntriesFrom, H2cPktsz, Packet;
      ghost var before, from := ring[..], Prefix(r.sgl, i0) + o0;
      StreamNone(conf, before, pidx, r, i0, o0);
      ring[pidx] := ring[pidx].(sop := false, eop := false);
      assert ring[..] == before[pidx := Unmarked(before[pidx])];
      var i, sgOffset := i0, o0;
      p, cnt, dataCnt, ds, es := pidx, 0, 0, [], [];
      while i < |r.sgl| && cnt < descMax
        invariant i0 <= i <= |r.sgl| && (i == i0 <==> cnt == 0)
        invariant sgOffset == if i == i0 then o0 else 0
        invariant cnt == |ds| <= descMax && p == RingIdxIncr(pidx, cnt, conf.rngsz)
        invariant Streamed(conf, before, ring[..], pidx, ds, es, r, from, from + dataCnt)
        invariant Packets(conf, r, ds, es, from)
        invariant cnt == descMax || from + dataCnt == Prefix(r.sgl, i) + sgOffset
        invariant r.count > 0 ==> (dataCnt > 0 <==> cnt > 0 && H2cPktsz(r) > 0)
        invariant es + EntriesFrom(r.sgl, i, sgOffset, H2cPktsz(r), descMax - cnt) ==
                  EntriesFrom(r.sgl, i0, o0, H2cPktsz(r), descMax)
        decreases |r.sgl| - i
      {
        var moved, c, tlen;
        p, c, moved, tlen, ds, es := StreamSegment(r, i, sgOffset, p, descMax - cnt, before, pidx, ds, es, from);
        cnt := cnt + c;
        dataCnt := dataCnt + moved;
        sgOffset := 0;
        i := i + 1;
      }
      EntriesEnd(r.sgl, i, sgOffset, H2cPktsz(r), descMax - cnt);
    }

    /** One pass of the streaming issue loop. */
    method IssuePassH2c() returns (cnt: nat, dataCnt: nat, ghost ds: seq<Desc>, ghost es: seq<nat>)
      requires Running() && conf.st && work != [] && avail > 0
      modifies ring, `work, `pend, `workReqPend, `pidx, `avail, `log, `ends
      ensures Running()
      ensures log == old(log) + ds && cnt == |ds| > 0
      ensures es == PassEntries(old(work[0].req), old(work[0].offset), old(avail))
      ensures Packets(conf, old(work[0].req), ds, es, old(work[0].offset))
      ensures PassMarks(conf, old(View()), old(work[0].req), ds, es)
      ensures CanIssue(conf, old(View()), ds, dataCnt) && old(workReqPend) > 0
      ensures View() == Issue(conf, old(View()), ds, dataCnt)
      ensures old(ends) <= ends && avail + cnt == old(avail)
      ensures if Stuck(old(work[0].req))
              then avail == 0 && work == old(work)[0 := Progress(old(work[0]), cnt, 0)] &&
                   Backlog(work) == old(Backlog(work))
              else (avail == 0 || work == old(work)[1..]) && Backlog(work) < old(Backlog(work))
    {
      hide Inv, Streamed, Holds, Beyond, Moves, Wanted, Backlog, H2cSop, H2cEop, LapStart, EntriesFrom, Plain,
        PassMarks, Packets;
      ghost var t, before := View(), ring[..];
      HeadFacts(conf, t);
      var cb := work[0];
      var r := cb.req;
      var found := FindOffset(r.sgl, r.count, cb.offset);
      ResumePoint(r, cb.offset, found);
      var (i, o) := found.value;
      LocateUnique(r.sgl, i, o);
      var p;
      p, cnt, dataCnt, ds, es := StreamEntries(r, i, o, avail);
      StreamDone(conf, before, ring[..], pidx, ds, es, r, cb.offset, cb.offset + dataCnt);
      MarksOfPass(conf, t, before, r, ds, es);
      CommitPass(p, cnt, dataCnt, ds, before);
    }

    method SetRunning(on: bool)
      requires Running()
      modifies `procReqRunning
      ensures Running() && View() == old(View()) && procReqRunning == on
    {
      hide Inv, Holds, LapStart;
      procReqRunning := on;
    }

    /** `descq_poll_mm_n_h2c_cmpl_status`: a completion pass if the queue polls, and nothing else. */
    method Poll()
      requires Running()
      modifies this
      ensures Same(old(ring), old(state), old(qStopWait), old(submitted))
      ensures log == old(log) && ends == old(ends) && work == old(work)
      ensures Running() && Advances(old(View()), View()) && avail >= old(avail)
      ensures procReqRunning == (conf.poll || old(procReqRunning))
      ensures conf.poll ==> consumed == device && BellAfterCompletion(old(View()), old(rung), View(), rung)
      ensures !conf.poll ==> View() == old(View()) && rung == old(rung) && pendListEmpty == old(pendListEmpty)
      ensures soft == old(soft) && posted in {old(posted), soft}
      ensures pendListEmpty == if |completed| == |old(completed)| then old(pendListEmpty) else consumed == |log|
    {
      hide Inv, Holds, Advances, LapStart, Running;
      ghost var t := View();
      AdvancesSelf(t);
      if conf.poll {
        SetRunning(true);
        CmplStatus();
      }
    }

    /** One round of the issue loop: make room if there is none, then one pass. */
    method IssueRound() returns (cnt: nat)
      requires Running() && work != []
      modifies this, ring
      ensures Same(old(ring), old(state), old(qStopWait), old(submitted))
      ensures Running() && Advances(old(View()), View()) && |log| == |old(log)| + cnt
      ensures procReqRunning == old(procReqRunning) || (conf.poll && procReqRunning)
      ensures soft == old(soft) && Backlog(work) <= old(Backlog(work))
      ensures cnt == 0 ==>
                && work == old(work) && old(avail) <= avail == 0 && (conf.poll ==> consumed == device)
                && posted in {old(posted), soft} && (pendListEmpty ==> old(pendListEmpty) || consumed == |log|)
      ensures cnt > 0 ==> (Backlog(work) < old(Backlog(work)) <==> !Stalls(conf, old(work[0].req)))
      ensures Stalls(conf, old(work[0].req)) ==> work != [] && work[0].req == old(work[0].req)
      ensures old(avail) > 0 || !conf.poll ==> consumed == old(consumed) && device == old(device) && rung == old(rung)
    {
      hide Inv, Holds, Backlog, Framed, PassMarks, PassEntries, LapStart, Issue, CanIssue, Running, Chunks, Packets;
      if avail == 0 {
        Poll();
      }
      if avail == 0 {
        return 0;
      }
      ghost var ds, es;
      if conf.st {
        var dataCnt;
        cnt, dataCnt, ds, es := IssuePassH2c();
      } else {
        var dataCnt;
        cnt, dataCnt, ds, es := IssuePassMm();
      }
    }

    /** The issue loop. It ends, and it ends only when nothing waits or the ring is full, for a
        polling queue also after one more look at the writeback. */
    method IssueLoop() returns (descWritten: nat)
      requires Running()
      modifies this, ring
      ensures Same(old(ring), old(state), old(qStopWait), old(submitted))
      ensures Running() && Advances(old(View()), View()) && |log| == |old(log)| + descWritten
      ensures work == [] || (avail == 0 && (conf.poll ==> consumed == device))
      ensures procReqRunning == old(procReqRunning) || (conf.poll && procReqRunning)
      ensures soft == old(soft) && (!conf.poll ==> consumed == old(consumed) && device == old(device))
      ensures descWritten == 0 ==>
                && work == old(work) && posted in {old(posted), soft}
                && (pendListEmpty ==> old(pendListEmpty) || consumed == |log|)
                && (old(consumed) == old(device) ==> consumed == device)
      ensures old(work) != [] && old(avail) > 0 ==>
                descWritten > 0 && (Backlog(work) < old(Backlog(work)) <==> !Stalls(conf, old(work[0].req)))
    {
      hide Inv, Holds, Backlog, Advances;
      descWritten := 0;
      ghost var t := View();
      AdvancesSelf(t);
      while work != []
        invariant Running() && Advances(t, View()) && |log| == |old(log)| + descWritten
        invariant Same(old(ring), old(state), old(qStopWait), old(submitted))
        invariant procReqRunning == old(procReqRunning) || (conf.poll && procReqRunning)
        invariant descWritten == 0 ==> View() == t && pendListEmpty == old(pendListEmpty)
        invariant soft == old(soft) && Backlog(work) <= old(Backlog(work))
        invariant !conf.poll ==> consumed == old(consumed) && device == old(device)
        invariant old(work) != [] && !Stalls(conf, old(work[0].req)) && descWritten > 0 ==>
                    Backlog(work) < old(Backlog(work))
        invariant old(work) != [] && Stalls(conf, old(work[0].req)) ==>
                    work != [] && work[0].req == old(work[0].req) && Backlog(work) == old(Backlog(work))
        decreases soft + conf.rngsz - |log|
      {
        ghost var u := View();
        var cnt := IssueRound();
        AdvancesTrans(t, u, View());
        SoftFacts(conf, View());
        descWritten := descWritten + cnt;
        if cnt == 0 {
          break;
        }
      }
    }

    /** Staging the producer index and ringing the doorbell, with the outcome of the write. */
    method PostDescriptors() returns (ok: bool)
      requires Running()
      modifies `pendListEmpty, `pidxInfo, `soft, `hwPidx, `posted, `rung
      ensures Running() && Advances(old(View()), View()) && !pendListEmpty
      ensures rung == old(rung) + 1 && ok == bells(old(rung))
      ensures View() == if ok then Post(Stage(old(View()))) else Stage(old(View()))
    {
      hide Inv, Holds, LapStart;
      ghost var t := View();
      StageKeeps(conf, t);
      pendListEmpty := false;
      pidxInfo := pidx;
      soft := |log|;
      assert View() == Stage(t);
      ok := WriteDoorbell();
    }

    /** Posting what a pass has written and one more look at the writeback. */
    method PostAndPoll() returns (rv: int)
      requires Running()
      modifies this
      ensures Same(old(ring), old(state), old(qStopWait), old(submitted))
      ensures log == old(log) && work == old(work) && soft == |log|
      ensures Running() && Advances(old(View()), View())
      ensures pendListEmpty <==> |completed| > |old(completed)| && consumed == |log|
      ensures rv == if bells(old(rung)) then 0 else -EINVAL
      ensures rv == 0 ==> posted == |log| && procReqRunning == (conf.poll || old(procReqRunning))
      ensures rv == 0 && conf.poll ==> consumed == device
      ensures rv != 0 ==> rung == old(rung) + 1 && posted == old(posted) && procReqRunning == old(procReqRunning)
      ensures rv != 0 || !conf.poll ==>
                consumed == old(consumed) && device == old(device) && completed == old(completed)
    {
      hide Inv, Holds, Advances;
      ghost var v := View();
      var ok := PostDescriptors();
      if !ok {
        return -EINVAL;
      }
      ghost var w := View();
      Poll();
      AdvancesTrans(v, w, View());
      return 0;
    }

    /** The end of the region: post what was written, and free the queue unless that failed. */
    method Leave(written: bool) returns (rv: int)
      requires Running() && (!written && pendListEmpty ==> consumed == |log|)
      modifies this
      ensures Same(old(ring), old(state), old(qStopWait), old(submitted))
      ensures log == old(log) && work == old(work) && Running() && Advances(old(View()), View())
      ensures pendListEmpty ==> consumed == |log|
      ensures !written ==> rv == 0 && View() == old(View())
      ensures written ==> soft == |log| && rv == if bells(old(rung)) then 0 else -EINVAL
      ensures rv == 0 ==> !procReqRunning && (written ==> posted == |log| && (conf.poll ==> consumed == device))
      ensures rv != 0 ==> rung == old(rung) + 1 && posted == old(posted) && procReqRunning == old(procReqRunning)
      ensures rv != 0 || !conf.poll ==> consumed == old(consumed) && device == old(device)
    {
      hide Inv, Holds, Advances, Running;
      AdvancesSelf(View());
      rv := 0;
      if written {
        rv := PostAndPoll();
      }
      if rv == 0 {
        SetRunning(false);
      }
    }

    /** How far the device had got when the lock was taken, as far as the queue will look. */
    ghost function Seen(t: Tx): nat {
      if conf.poll then t.idx.device else t.idx.consumed
    }

    /** What one run of the issue engine makes of the queue, from `t` to `u`. A polling queue takes
        over at least what the device had consumed before, any other queue nothing. The run ends
        with nothing waiting or a full ring. With room to begin with it issues descriptors, and
        less is left to do exactly when the head can move. What is issued is staged, and nothing
        else is. */
    ghost predicate Processed(t: Tx, u: Tx) {
      && Advances(t, u) && u.submitted == t.submitted
      && Seen(t) <= u.idx.consumed
      && (!conf.poll ==> u.idx.consumed == t.idx.consumed && u.idx.device == t.idx.device)
      && (u.work == [] || |u.log| + 1 >= Seen(t) + conf.rngsz)
      && (t.work != [] && |t.log| + 1 < Seen(t) + conf.rngsz ==>
           |u.log| > |t.log| && (Backlog(u.work) < Backlog(t.work) <==> !Stalls(conf, t.work[0].req)))
      && (|u.log| == |t.log| ==> u.work == t.work)
      && u.idx.soft == if |u.log| > |t.log| then |u.log| else t.idx.soft
    }

    /** How a run ends: the doorbell has got what was staged and the queue is free again, or the
        last doorbell write failed and a polling queue stays marked as running. */
    ghost predicate Ended(t: Tx, u: Tx, rv: int, running: bool, n: nat) {
      if rv == 0 then
        && !running && (|u.log| > |t.log| ==> u.idx.posted == |u.log|) && (conf.poll ==> u.idx.consumed == u.idx.device)
        && (|u.log| == |t.log| ==> u.idx.posted in {t.idx.posted, u.idx.soft})
      else
        && rv == -EINVAL && running == conf.poll && |u.log| > |t.log| && u.idx.posted < |u.log|
        && n > 0 && !bells(n - 1)
    }

    /** The part of the locked region behind the state checks. */
    method Process() returns (rv: int)
      requires Running() && !procReqRunning && (pendListEmpty ==> consumed == |log|)
      modifies this, ring
      ensures Same(old(ring), old(state), old(qStopWait), old(submitted))
      ensures Running() && (pendListEmpty ==> consumed == |log|)
      ensures Processed(old(View()), View()) && Ended(old(View()), View(), rv, procReqRunning, rung)
    {
      hide Inv, Holds, Advances, InFlightIntact, Running, Backlog;
      ghost var t := View();
      RunningFacts();
      Poll();
      ghost var u := View();
      RunningFacts();
      AdvancesMeans(t, u);
      var descWritten := IssueLoop();
      ghost var v := View();
      AdvancesTrans(t, u, v);
      AdvancesMeans(u, v);
      RunningFacts();
      rv := Leave(descWritten > 0);
      AdvancesTrans(t, v, View());
      AdvancesMeans(v, View());
    }

    /** `qdma_descq_proc_sgt_request`: one locked region that completes and issues requests. */
    method ProcRequest() returns (rv: int)
      requires Valid()
      modifies this, ring
      ensures Same(old(ring), old(state), old(qStopWait), old(submitted))
      ensures Valid() && Advances(old(View()), View())
      ensures state != Online || (old(procReqRunning) && !qStopWait) ==>
                rv == 0 && unchanged(this, ring)
      ensures qStopWait ==>
                && rv == 0 && log == old(log) && work == old(work) && procReqRunning == old(procReqRunning)
                && consumed == device && BellAfterCompletion(old(View()), old(rung), View(), rung)
      ensures state == Online && !qStopWait && !old(procReqRunning) ==>
                Processed(old(View()), View()) && Ended(old(View()), View(), rv, procReqRunning, rung)
    {
      hide Inv, Holds, Backlog, LapStart;
      if qStopWait {
        CmplStatus();
        return 0;
      }
      if state != Online || procReqRunning {
        return 0;
      }
      rv := Process();
    }

    /** The first region of `qdma_descq_service_cmpl_update` for a queue that does not poll. */
    method TakeCompletions()
      requires Valid() && state == Online
      modifies `cidx, `avail, `credit, `consumed, `pend, `completed, `pendListEmpty,
               `hwCidx, `device, `hwPidx, `posted, `rung
      ensures Valid() && Advances(old(View()), View()) && consumed == device
      ensures BellAfterCompletion(old(View()), old(rung), View(), rung)
    {
      hide Inv, Holds, LapStart;
      CmplStatus();
    }

    /** `qdma_descq_service_cmpl_update`, as interrupts and service threads call it. A polling queue
        is processed unless it is marked as running; any other takes over the device's progress,
        in state `mid`, and is processed if requests wait. `inner` is how the processing went. */
    method ServiceUpdate() returns (rv: int, ghost mid: Tx, ghost inner: int)
      requires Valid() && state == Online
      modifies this, ring
      ensures Valid() && Same(old(ring), old(state), old(qStopWait), old(submitted))
      ensures Advances(old(View()), View())
      ensures conf.poll && old(procReqRunning) ==> unchanged(this, ring)
      ensures rv == if conf.poll then 0 else inner
      ensures if conf.poll then mid == old(View())
              else Advances(old(View()), mid) && mid.idx.consumed == mid.idx.device
      ensures mid.log == old(log) && mid.work == old(work)
      ensures !conf.poll && old(work) == [] ==> View() == mid && inner == 0
      ensures !qStopWait && !old(procReqRunning) && (conf.poll || old(work) != []) ==>
                Processed(mid, View()) && Ended(mid, View(), inner, procReqRunning, rung)
      ensures !qStopWait && !old(procReqRunning) ==>
                consumed >= old(device) && (work == [] || |log| + 1 >= old(device) + conf.rngsz)
      ensures qStopWait && !old(procReqRunning) ==> consumed == device
    {
      hide Inv, Holds, LapStart, Ended, BellAfterCompletion, Backlog;
      mid, inner, rv := View(), 0, 0;
      RunningFacts();
      if conf.poll {
        if !procReqRunning {
          var ignored := ProcRequest();
          inner := ignored;
        }
        return;
      }
      TakeCompletions();
      mid := View();
      if workReqPend > 0 {
        rv := ProcRequest();
        inner := rv;
      }
    }
  }
}
