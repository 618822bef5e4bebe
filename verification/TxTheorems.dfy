/** What the invariant of the transmit engine means for its callers. Every locked region keeps
    the invariant, so each statement here holds at every release of the lock in every run. */
module TxTheorems {
  import opened Ring
  import opened ScatterGather
  import opened TxModel

  /** Descriptors of the pending requests that are not paid for yet. */
  function Owed(pend: seq<Cb>): nat {
    if pend == [] then 0 else Owed(pend[..|pend| - 1]) + pend[|pend| - 1].descNr
  }

  lemma {:induction false} OwedUpTo(ends: seq<nat>, n: nat, done: nat, pend: seq<Cb>, consumed: nat, cr: nat, k: nat)
    requires EndsInv(ends, n) && LedgerInv(ends, done, pend, consumed, cr)
    requires k <= |pend|
    ensures k == 0 ==> Owed(pend[..k]) == 0
    ensures k > 0 ==> consumed + Owed(pend[..k]) == ends[done + k - 1] + cr
  {
    if k > 0 {
      OwedUpTo(ends, n, done, pend, consumed, cr, k - 1);
      assert pend[..k][..k - 1] == pend[..k - 1];
    }
  }

  /** The credit ledger: descriptors in flight are those owed by the pending requests and by
      the partly issued head of the work list, less the credit in hand. */
  lemma CreditLedger(c: Conf, t: Tx)
    requires Inv(c, t)
    ensures var head := if t.work == [] then 0 else t.work[0].descNr;
            |t.log| - t.idx.consumed == Owed(t.pend) + head - t.credit
  {
    assert t.pend[..|t.pend|] == t.pend;
    OwedUpTo(t.ends, |t.log|, |t.completed|, t.pend, t.idx.consumed, t.credit, |t.pend|);
  }

  /** A request is called back if and only if the device has consumed its last descriptor, as
      far as the driver has seen: never early, and never left behind. */
  lemma DoneIffConsumed(c: Conf, t: Tx, g: nat)
    requires Inv(c, t) && g < |t.ends|
    ensures g < |t.completed| <==> t.ends[g] <= t.idx.consumed
  {
    var done := |t.completed|;
    if g < done {
      assert t.ends[g] <= Start(t.ends, done);
    } else {
      assert t.ends[done] <= t.ends[g];
    }
  }

  /** With nothing in flight every fully issued request has been called back. */
  lemma DrainedMeansDone(c: Conf, t: Tx)
    requires Inv(c, t) && t.idx.consumed == |t.log|
    ensures t.pend == []
  {
  }

  /** Callbacks report every byte of the request and come in submission order. */
  lemma CallbacksInOrder(c: Conf, t: Tx, i: nat)
    requires Inv(c, t) && i < |t.completed|
    ensures t.completed[i] == Completion(t.submitted[i], t.submitted[i].count, 0)
    ensures Moves(c, t.log[Start(t.ends, i)..t.ends[i]]) == Wanted(c, t.submitted[i], 0, t.submitted[i].count)
    ensures t.ends[i] <= t.idx.consumed <= t.idx.device
  {
    assert Exact(c, t.log, t.ends, t.submitted, i);
    DoneIffConsumed(c, t, i);
  }

  /** Everything the callers asked for in the first `n` requests, in order. */
  function AllWanted(c: Conf, submitted: seq<Request>, n: nat): seq<Move>
    requires n <= |submitted| && forall i :: 0 <= i < n ==> Total(submitted[i].sgl) == submitted[i].count
  {
    if n == 0 then []
    else AllWanted(c, submitted, n - 1) + Wanted(c, submitted[n - 1], 0, submitted[n - 1].count)
  }

  lemma {:induction false} LogUpTo(c: Conf, log: seq<Desc>, ends: seq<nat>, submitted: seq<Request>, n: nat)
    requires EndsInv(ends, |log|) && ByteInv(c, log, ends, submitted) && n <= |ends| <= |submitted|
    requires forall i :: 0 <= i < |submitted| ==> Total(submitted[i].sgl) == submitted[i].count
    ensures Moves(c, log[..Start(ends, n)]) == AllWanted(c, submitted, n)
  {
    if n > 0 {
      LogUpTo(c, log, ends, submitted, n - 1);
      assert Exact(c, log, ends, submitted, n - 1);
      var a, b := Start(ends, n - 1), ends[n - 1];
      assert log[..b] == log[..a] + log[a..b];
      MovesConcat(c, log[..a], log[a..b]);
    }
  }

  /** Byte-exact issue over the whole run: the descriptors ever issued, read in order, move
      exactly the bytes of the fully issued requests in submission order, and then the bytes
      of the head of the work list up to its offset. Nothing is skipped, repeated or mixed. */
  lemma LogIsExact(c: Conf, t: Tx)
    requires Inv(c, t)
    ensures |t.ends| <= |t.submitted|
    ensures forall i :: 0 <= i < |t.submitted| ==> Total(t.submitted[i].sgl) == t.submitted[i].count
    ensures t.work == [] ==> Moves(c, t.log) == AllWanted(c, t.submitted, |t.ends|)
    ensures t.work != [] ==>
      && t.work[0].req == t.submitted[|t.ends|] && t.work[0].offset <= Total(t.work[0].req.sgl)
      && Moves(c, t.log) == AllWanted(c, t.submitted, |t.ends|) + Wanted(c, t.work[0].req, 0, t.work[0].offset)
  {
    forall i | 0 <= i < |t.submitted| ensures Total(t.submitted[i].sgl) == t.submitted[i].count {
      assert WellFormed(t.submitted[i]);
    }
    var s := Start(t.ends, |t.ends|);
    LogUpTo(c, t.log, t.ends, t.submitted, |t.ends|);
    assert t.log == t.log[..s] + HeadDescs(t.log, t.ends);
    MovesConcat(c, t.log[..s], HeadDescs(t.log, t.ends));
    if t.work != [] {
      assert t.work[0].req == t.submitted[|t.completed| + |t.pend| + 0];
    }
  }

  lemma {:induction false} MovesFromTo(c: Conf, ds: seq<Desc>, j: nat, k: nat)
    requires j < |ds| && k < ds[j].len
    ensures var p := |Moves(c, ds[..j])| + k;
            p < |Moves(c, ds)| && Moves(c, ds)[p] == Move(HostSide(c, ds[j]) + k, EpSide(c, ds[j], k))
  {
    var n := |ds| - 1;
    if j < n {
      assert ds[..n][..j] == ds[..j];
      MovesFromTo(c, ds[..n], j, k);
    }
  }

  /** Descriptors of request number `g`: those of a finished request, or those of the head so
      far behind the last finished one. */
  function DescsOf(t: Tx, g: nat): seq<Desc>
    requires g <= |t.ends| && EndsInv(t.ends, |t.log|)
  {
    if g < |t.ends| then t.log[Start(t.ends, g)..t.ends[g]] else t.log[Start(t.ends, g)..]
  }

  lemma DescsAt(c: Conf, t: Tx, g: nat, j: nat)
    requires Inv(c, t) && g <= |t.ends|
    requires Start(t.ends, g) <= j < |t.log| && (g < |t.ends| ==> j < t.ends[g])
    ensures EndsInv(t.ends, |t.log|)
    ensures var ds, i := DescsOf(t, g), j - Start(t.ends, g);
            i < |ds| && ds[i] == t.log[j] && ds[..i] == t.log[Start(t.ends, g)..j]
  {
    hide IndexInv, QueueInv, ByteInv, HeadInv, StallInv, Plain, LedgerInv;
  }

  /** They move the first bytes of that request. */
  lemma DescsMove(c: Conf, t: Tx, g: nat)
    requires Inv(c, t) && g <= |t.ends| && DescsOf(t, g) != []
    ensures g < |t.submitted| && (g == |t.ends| ==> t.work != [])
    ensures var r := t.submitted[g];
            var n := if g < |t.ends| then r.count else t.work[0].offset;
            n <= r.count == Total(r.sgl) && Moves(c, DescsOf(t, g)) == Wanted(c, r, 0, n)
  {
    hide IndexInv, StallInv, Plain, Moves, Wanted;
    if g < |t.ends| {
      assert Exact(c, t.log, t.ends, t.submitted, g);
    } else {
      assert DescsOf(t, g) == HeadDescs(t.log, t.ends);
      assert t.work[0].req == t.submitted[|t.completed| + |t.pend| + 0];
    }
  }

  /** Where byte `k` of descriptor `j` goes, for every descriptor ever issued to a memory-mapped
      queue with a keyhole, those of the partly issued head included: it is byte `p` of its
      request, behind the bytes of the descriptors before it, and meets the endpoint at that
      byte's place in the window. */
  lemma KeyholeWindow(c: Conf, t: Tx, g: nat, j: nat, k: nat)
    requires Inv(c, t) && !c.st && c.apertureSize > 0
    requires g <= |t.ends| && Start(t.ends, g) <= j < |t.log| && (g < |t.ends| ==> j < t.ends[g])
    requires k < t.log[j].len
    ensures g < |t.submitted|
    ensures var r, p := t.submitted[g], |Moves(c, t.log[Start(t.ends, g)..j])| + k;
            && p < r.count == Total(r.sgl)
            && HostSide(c, t.log[j]) + k == HostAt(r.sgl, p)
            && EpSide(c, t.log[j], k) == r.epAddr + p % c.apertureSize
            && (g == |t.ends| ==> t.work != [] && p < t.work[0].offset)
  {
    hide Core, LedgerInv, Moves, HostSide, EpSide, HostAt;
    DescsAt(c, t, g, j);
    var s, ds := Start(t.ends, g), DescsOf(t, g);
    DescsMove(c, t, g);
    MovesFromTo(c, ds, j - s, k);
  }

  // ----- packet marks -----

  /** A mark of an earlier lap that does not belong on the descriptor of entry `e`. */
  predicate Misplaced(r: Request, stale: Desc, e: nat) {
    (stale.sop && e != 0) || (stale.eop && e != |r.sgl| - 1)
  }

  /** Descriptor `k` of a pass for entry `e` carries the marks of that entry and no other. */
  ghost predicate RightMarks(c: Conf, t: Tx, r: Request, k: nat, e: nat) {
    (SopMark(c, t, k, e) <==> c.descBypass && e == 0) &&
    (EopMark(c, t, r, k, e) <==> c.descBypass && e == |r.sgl| - 1)
  }

  /** When the packet marks of the next streaming pass are right, in every reachable state:
      exactly when the pass does not wrap onto a descriptor in slot 0, left there when the lap
      began, whose marks do not suit the entry now written there. Which entry that is follows
      from the request, its offset, the producer index and the room. Outside bypass mode no
      streaming descriptor is ever marked, so the marks are always right. */
  lemma StreamMarks(c: Conf, t: Tx)
    requires Inv(c, t) && c.st && t.work != [] && t.idx.avail > 0
    ensures t.idx.pidx <= |t.log|
    ensures var r := t.work[0].req;
            var es := PassEntries(r, t.work[0].offset, t.idx.avail);
            var wrap := c.rngsz - t.idx.pidx;
            (forall k :: 0 <= k < |es| ==> RightMarks(c, t, r, k, es[k]))
            <==> !(t.idx.pidx > 0 && 0 <= wrap < |es| && Misplaced(r, t.log[|t.log| - t.idx.pidx], es[wrap]))
    ensures !c.descBypass ==> forall j :: 0 <= j < |t.log| ==> !t.log[j].sop && !t.log[j].eop
  {
    var r := t.work[0].req;
    var es := PassEntries(r, t.work[0].offset, t.idx.avail);
    var wrap := c.rngsz - t.idx.pidx;
    hide PassEntries;
    if t.idx.pidx > 0 && 0 <= wrap < |es| {
      assert WrapsAt(c, t.idx, wrap);
      assert Misplaced(r, t.log[|t.log| - t.idx.pidx], es[wrap]) ==> c.descBypass;
      assert RightMarks(c, t, r, wrap, es[wrap]) <==> !Misplaced(r, t.log[|t.log| - t.idx.pidx], es[wrap]);
    }
  }

  // ----- requests that never move -----

  /** A streaming request whose endpoint address is a positive multiple of 2^32, and every
      request submitted behind it, is never issued whole and never called back. */
  lemma StalledNeverDone(c: Conf, t: Tx, g: nat, h: nat)
    requires Inv(c, t) && g <= h < |t.submitted| && Stalls(c, t.submitted[g])
    ensures |t.ends| <= g && |t.completed| <= h
  {
  }

  /** Once at the head of the work list it stays there without a byte issued, through every
      later step of every run. */
  lemma StalledForever(c: Conf, t: Tx, u: Tx)
    requires Inv(c, t) && t.work != [] && Stalls(c, t.work[0].req)
    requires Inv(c, u) && Advances(t, u)
    ensures u.ends == t.ends
    ensures u.work != [] && u.work[0].req == t.work[0].req && u.work[0].offset == 0
  {
    var g := |t.ends|;
    assert t.work[0].req == t.submitted[|t.completed| + |t.pend| + 0];
    StalledNeverDone(c, u, g, g);
    assert u.work[0].req == u.submitted[|u.completed| + |u.pend| + 0];
  }

  /** Callers can make such a request: any bytes at endpoint address 2^32. */
  lemma StallsAtFourGigabytes(sgl: seq<Seg>)
    requires sgl != [] && Positive(sgl)
    ensures var r := Request(0, sgl, Total(sgl), 0x1_0000_0000); WellFormed(r) && Stuck(r)
  {
    PrefixMonotone(sgl, 1, |sgl|);
    assert Prefix(sgl, 1) == Prefix(sgl, 0) + sgl[0].len;
  }
}
