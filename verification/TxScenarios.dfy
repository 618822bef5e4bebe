/** A run of the streaming queue that ends where a caller would not expect it to, although the
    device and the doorbell behave well in it. */
module TxScenarios {
  import opened Ring
  import opened ScatterGather
  import opened TxModel
  import opened TxSteps
  import opened TxQueue

  /** Requests of one and of three one-byte entries. */
  const SMALL := Request(0, [Seg(0, 1)], 1, 0)
  const LARGE := Request(1, [Seg(0, 1), Seg(1, 1), Seg(2, 1)], 3, 0)

  lemma SmallPass()
    ensures WellFormed(SMALL) && forall room: nat :: room > 0 ==> PassEntries(SMALL, 0, room) == [0]
  {
    assert Prefix(SMALL.sgl, 0) == 0;
    forall room: nat | room > 0 ensures PassEntries(SMALL, 0, room) == [0] {
      EntriesStep(SMALL.sgl, 0, 0, PAGE_SIZE, room);
      EntriesEnd(SMALL.sgl, 1, 0, PAGE_SIZE, room - 1);
    }
  }

  lemma LargePass()
    ensures WellFormed(LARGE) && PassEntries(LARGE, 0, 2) == [0, 1]
  {
    var sgl := LARGE.sgl;
    assert Prefix(sgl, 0) == 0 && Prefix(sgl, 1) == 1 && Prefix(sgl, 2) == 2 && Prefix(sgl, 3) == 3;
    EntriesStep(sgl, 0, 0, PAGE_SIZE, 2);
    EntriesStep(sgl, 1, 0, PAGE_SIZE, 1);
    EntriesEnd(sgl, 2, 0, PAGE_SIZE, 0);
  }

  /** A started bypass queue with three slots and two small requests waiting. */
  method TwoWaiting() returns (q: DescQueue)
    ensures fresh(q) && fresh(q.ring) && q.Valid() && q.state == Online &&
            q.conf == Conf(3, true, false, 0, false, true)
    ensures q.log == [] && q.pidx == q.cidx == q.consumed == q.device == q.posted == 0
    ensures q.work == [Cb(SMALL, 0, 0), Cb(SMALL, 0, 0)] && q.submitted == [SMALL, SMALL]
    ensures forall n :: q.bells(n)
  {
    hide Inv, Holds, LapStart;
    SmallPass();
    q := new DescQueue(Conf(3, true, false, 0, false, true), _ => true);
    var rv := q.Start(true, InternalAndBypass, 0);
    q.Enqueue(SMALL);
    q.Enqueue(SMALL);
  }

  /** Both are issued, one descriptor each; they are whole packets, so each has both marks. */
  method IssueBoth(q: DescQueue)
    requires q.Running() && q.conf == Conf(3, true, false, 0, false, true)
    requires q.log == [] && q.pidx == q.cidx == q.consumed == q.device == q.posted == 0
    requires q.work == [Cb(SMALL, 0, 0), Cb(SMALL, 0, 0)] && q.bells(q.rung)
    modifies q, q.ring
    ensures q.Running() && q.ring == old(q.ring)
    ensures |q.log| == 2 && q.log[0].sop && q.log[0].eop && q.pidx == 2 && q.work == []
    ensures q.submitted == old(q.submitted) && q.posted == 2 && q.device == 0 && q.consumed == 0 && !q.pendListEmpty
  {
    hide DescQueue.Running, PassEntries, Advances, Moves, Wanted, Packets;
    SmallPass();
    ghost var t := q.View();
    q.RunningFacts();
    var cnt, n, ds, es := q.IssuePassH2c();
    assert MarkedAs(q.conf, t, SMALL, ds[0], 0, es[0]);
    q.RunningFacts();
    cnt, n, ds, es := q.IssuePassH2c();
    q.RunningFacts();
    var ok := q.PostDescriptors();
  }

  /** The device sends both packets and the driver takes note. */
  method SendBoth(q: DescQueue)
    requires q.Running() && q.conf == Conf(3, true, false, 0, false, true) && !q.pendListEmpty
    requires |q.log| == q.posted == 2 && q.device == q.consumed == 0
    modifies q
    ensures q.Running() && q.Valid() && q.ring == old(q.ring)
    ensures q.log == old(q.log) && q.pidx == old(q.pidx) && q.work == old(q.work) && q.submitted == old(q.submitted)
    ensures q.avail == 2 && q.state == Online
  {
    hide DescQueue.Running, Inv, Holds;
    q.DeviceConsumes(2);
    q.RunningFacts();
    q.CmplStatus();
    q.RunningFacts();
  }

  /** The device sends both packets. A request of three entries then gets two descriptors, the
      second of them in slot 0, where the first packet was: the descriptor of its middle entry
      starts and ends a packet. */
  method StaleMarks() returns (q: DescQueue, ghost ds: seq<Desc>, ghost es: seq<nat>)
    ensures fresh(q) && q.Running() && q.conf.st && q.conf.descBypass
    ensures q.submitted == [SMALL, SMALL, LARGE] && |q.log| == 4 && q.log[2..] == ds
    ensures es == PassEntries(LARGE, 0, 2) == [0, 1] && |LARGE.sgl| == 3
    ensures ds[1].sop && ds[1].eop
  {
    hide DescQueue.Running, Inv, PassEntries, Issue, CanIssue, Packets;
    LargePass();
    q := TwoWaiting();
    IssueBoth(q);
    SendBoth(q);
    q.Enqueue(LARGE);
    ghost var t := q.View();
    var cnt, n;
    cnt, n, ds, es := q.IssuePassH2c();
    assert MarkedAs(q.conf, t, LARGE, ds[1], 1, es[1]);
  }
}
