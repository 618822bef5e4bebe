/** The adaptive completion counter of one queue: it walks along the sorted thresholds one
    step at a time (qdma_st_c2h.c, `descq_adjust_c2h_cntr_th` and its helpers). */
module AdaptiveCounter {
  import opened Bits
  import opened Threshold

  const MAX_C2H_CNTR_STAGNANT_CNT := 16

  /** Thresholds next to a place in the order, itself at the ends. */
  function Above(th: seq<nat>, s: seq<nat>, rank: nat): nat
    requires Sorts(th, s) && rank < N
  {
    if rank == N - 1 then th[s[rank]] else th[s[rank + 1]]
  }

  function Under(th: seq<nat>, s: seq<nat>, rank: nat): nat
    requires Sorts(th, s) && rank < N
  {
    if rank > 0 then th[s[rank - 1]] else th[s[rank]]
  }

  /** The neighbours bracket the current threshold, so do the averages taken with them. */
  lemma Bracket(th: seq<nat>, s: seq<nat>, rank: nat)
    requires Sorts(th, s) && rank < N
    ensures Under(th, s, rank) <= th[s[rank]] <= Above(th, s, rank)
  {
    assert rank > 0 ==> th[s[rank - 1]] <= th[s[rank]];
    assert rank < N - 1 ==> th[s[rank]] <= th[s[rank + 1]];
  }

  class Counter {
    const th: seq<nat>
    const order: seq<nat>
    const rngsz: nat
    const latencyOptimize: bool
    var counterIdx: nat
    var rank: nat
    var avg: nat
    var hi: nat
    var lo: nat
    var monitor: nat

    /** The counter in force is the one at the current place of the order. */
    ghost predicate Valid()
      reads this
    {
      && Sorts(th, order) && (forall i :: 0 <= i < N ==> th[i] < 256)
      && rank < N && counterIdx == order[rank] && lo <= hi && avg < U32
    }

    /** The average starts over at the threshold in force, and the marks stand at the neighbouring
        thresholds or half way to them. */
    ghost predicate StartsOver(optimize: bool)
      reads this
      requires Sorts(th, order) && rank < N && counterIdx < N
    {
      && avg == th[counterIdx]
      && hi == (if optimize then Above(th, order, rank) else (avg + Above(th, order, rank)) / 2)
      && lo == (if optimize then Under(th, order, rank) else (avg + Under(th, order, rank)) / 2)
    }

    /** What speaks for one place up, with average `a`: there is one, its threshold is nearer to
        the average than the one in force, and below half the ring. */
    ghost predicate WantsUp(a: nat)
      reads `rank
      requires Sorts(th, order) && rank < N
    {
      && rank < N - 1 && th[order[rank + 1]] < rngsz / 2
      && var next := th[order[rank + 1]];
         !(next >= a && next - a >= Sub32(a, th[order[rank]]))
    }

    /** And for one place down: there is one, its threshold is nearer to the average, and not below
        the budget unless the queue is tuned for latency. */
    ghost predicate WantsDown(a: nat, budget: nat)
      reads `rank
      requires Sorts(th, order) && rank < N
    {
      && rank > 0 && (latencyOptimize || th[order[rank - 1]] >= Sub32(budget, 2))
      && var next := th[order[rank - 1]];
         !(next <= a && a - next >= Sub32(th[order[rank]], a))
    }

    /** The part of `qdma_descq_config_complete` for completion queues. */
    constructor (th: seq<nat>, order: seq<nat>, rngsz: nat, latencyOptimize: bool, cntThIdx: nat)
      requires Sorts(th, order) && (forall i :: 0 <= i < N ==> th[i] < 256) && cntThIdx < N
      ensures Valid() && counterIdx == cntThIdx && monitor == 0 && StartsOver(false)
      ensures this.th == th && this.order == order && this.rngsz == rngsz && this.latencyOptimize == latencyOptimize
    {
      this.th, this.order, this.rngsz, this.latencyOptimize := th, order, rngsz, latencyOptimize;
      counterIdx := cntThIdx;
      avg := th[cntThIdx];
      ghost var p := AllPicked(order, cntThIdx);
      var i := 0;
      while i < N && order[i] != cntThIdx
        invariant 0 <= i <= p
      {
        i := i + 1;
      }
      rank := i;
      hi := (th[cntThIdx] + Above(th, order, i)) / 2;
      lo := (th[cntThIdx] + Under(th, order, i)) / 2;
      monitor := 0;
      Bracket(th, order, i);
    }

    /** `descq_adjust_c2h_cntr_avgs`. */
    method AdjustAvgs()
      requires Sorts(th, order) && (forall i :: 0 <= i < N ==> th[i] < 256) && rank < N && counterIdx == order[rank]
      modifies `avg, `hi, `lo
      ensures Valid() && StartsOver(latencyOptimize) && lo <= avg <= hi
    {
      Bracket(th, order, rank);
      avg := th[counterIdx];
      var i := if rank == N - 1 then order[rank] else order[rank + 1];
      hi := if latencyOptimize then th[i] + th[i] else avg + th[i];
      i := if rank > 0 then order[rank - 1] else order[rank];
      lo := if latencyOptimize then th[i] + th[i] else avg + th[i];
      hi := hi / 2;
      lo := lo / 2;
    }

    /** `descq_incr_c2h_cntr_th`: one place up if the next threshold is nearer to the average
        and below half the ring. */
    method Incr()
      requires Valid()
      modifies `counterIdx, `rank, `avg, `hi, `lo, `monitor
      ensures Valid()
      ensures rank == if old(WantsUp(avg)) then old(rank) + 1 else old(rank)
      ensures if rank == old(rank) then avg == old(avg) && hi == old(hi) && lo == old(lo)
              else StartsOver(latencyOptimize)
      ensures monitor == if old(rank) == N - 1 then old(monitor) else 0
    {
      if rank == N - 1 {
        return;
      }
      monitor := 0;
      var curr := th[order[rank]];
      var i := rank + 1;
      var next := th[order[i]];
      if next >= avg && next - avg >= Sub32(avg, curr) {
        return;
      }
      if next < rngsz / 2 {
        counterIdx := order[i];
        rank := i;
        AdjustAvgs();
      }
    }

    /** `descq_decr_c2h_cntr_th`: one place down if the previous threshold is nearer to the
        average and, unless tuned for latency, not below the budget. */
    method Decr(budget: nat)
      requires Valid() && budget < U32
      modifies `counterIdx, `rank, `avg, `hi, `lo, `monitor
      ensures Valid()
      ensures rank == if old(WantsDown(avg, budget)) then old(rank) - 1 else old(rank)
      ensures if rank == old(rank) then avg == old(avg) && hi == old(hi) && lo == old(lo)
              else StartsOver(latencyOptimize)
      ensures monitor == if old(rank) == 0 then old(monitor) else 0
    {
      if rank == 0 {
        return;
      }
      monitor := 0;
      var curr := th[order[rank]];
      var i := rank - 1;
      var next := th[order[i]];
      if next <= avg && avg - next >= Sub32(curr, avg) {
        return;
      }
      if !latencyOptimize && next < Sub32(budget, 2) {
        return;
      }
      counterIdx := order[i];
      rank := i;
      AdjustAvgs();
    }

    /** The packets pending now enter the average with half the weight. */
    function Average(pend: nat): nat
      reads this
    {
      ((avg + pend) % U32) / 2
    }

    /** `descq_adjust_c2h_cntr_th`: one step along the order or none. Up exactly when the new average
        has reached the high mark and the place above suits it better; down exactly when it is no
        higher than the low mark, or has been between the marks for the sixteenth time in a row, and
        the place below suits it better. Each step is to a threshold on that side, a step up never
        to half the ring or more. */
    method Adjust(pend: nat, budget: nat)
      requires Valid() && budget < U32
      modifies `counterIdx, `rank, `avg, `hi, `lo, `monitor
      ensures Valid() && old(rank) - 1 <= rank <= old(rank) + 1
      ensures rank == old(rank) + 1 <==> old(hi <= Average(pend) && WantsUp(Average(pend)))
      ensures rank == old(rank) - 1 <==>
                old(hi > Average(pend) && (lo >= Average(pend) || monitor + 1 == MAX_C2H_CNTR_STAGNANT_CNT) &&
                  WantsDown(Average(pend), budget))
      ensures if rank == old(rank) then avg == old(Average(pend)) && hi == old(hi) && lo == old(lo)
              else StartsOver(latencyOptimize)
      ensures rank > old(rank) ==> th[order[old(rank)]] <= th[counterIdx] < rngsz / 2
      ensures rank < old(rank) ==> th[counterIdx] <= th[order[old(rank)]]
      ensures old(lo < Average(pend) < hi) ==>
                monitor == if old(monitor) + 1 == MAX_C2H_CNTR_STAGNANT_CNT then 0 else old(monitor) + 1
      ensures old(hi <= Average(pend)) ==> monitor == if old(rank) == N - 1 then old(monitor) else 0
      ensures old(Average(pend) <= lo && Average(pend) < hi) ==> monitor == if old(rank) == 0 then old(monitor) else 0
    {
      avg := ((avg + pend) % U32) / 2;
      if hi <= avg {
        Incr();
      } else if lo >= avg {
        Decr(budget);
      } else {
        monitor := monitor + 1;
        if monitor == MAX_C2H_CNTR_STAGNANT_CNT {
          Decr(budget);
          monitor := 0;
        }
      }
    }
  }
}
