/** What the first-fit allocator guarantees over every history of allocations and releases,
    and exactly where the code stops guaranteeing it. */
module FirstFitTheorems {
  import opened FirstFitModel

  /** The region as `init_freelist` and `init_hbmaddr` set it up: one free block. */
  function Fresh(lo: nat, hi: nat): Arena
    requires lo <= hi
  {
    Arena([Block(lo, hi, hi - lo)], map[])
  }

  lemma FreshTiles(lo: nat, hi: nat)
    requires lo < hi && Aligned(lo) && Aligned(hi)
    ensures Tiled(lo, hi, Fresh(lo, hi)) && Coalesced(Fresh(lo, hi).free) && Tail(hi, Fresh(lo, hi).free)
  {
    forall x: nat | lo <= x < hi ensures IsFree(Fresh(lo, hi).free, x) {
      assert Fresh(lo, hi).free[0].start <= x < Fresh(lo, hi).free[0].end;
    }
  }

  // ----- one owner for every byte -----

  /** No byte is both free and allocated, and none is allocated twice. */
  lemma OneOwner(lo: nat, hi: nat, a: Arena, x: nat)
    requires Tiled(lo, hi, a)
    ensures lo <= x < hi <==> IsFree(a.free, x) || IsLive(a.used, x)
    ensures !(IsFree(a.free, x) && IsLive(a.used, x))
    ensures forall p, q :: p in a.used && q in a.used && p <= x < p + a.used[p] && q <= x < q + a.used[q] ==> p == q
    ensures forall i, j ::
              (0 <= i < |a.free| && a.free[i].start <= x < a.free[i].end
               && 0 <= j < |a.free| && a.free[j].start <= x < a.free[j].end) ==> i == j
  {
  }

  // ----- failure means there is no room -----

  /** `size` free bytes in a row, from `at` on. */
  ghost predicate FreeRun(free: seq<Block>, at: nat, size: nat) {
    forall x: nat :: at <= x < at + size ==> IsFree(free, x)
  }

  /** In a coalesced list a run of free bytes lies inside one block. */
  lemma RunInOneBlock(lo: nat, hi: nat, free: seq<Block>, at: nat, size: nat) returns (i: nat)
    requires Shaped(lo, hi, free) && Coalesced(free) && size > 0 && FreeRun(free, at, size)
    ensures i < |free| && free[i].start <= at && at + size <= free[i].end
  {
    hide Aligned;
    assert IsFree(free, at);
    var k :| 0 <= k < |free| && free[k].start <= at < free[k].end;
    i := k;
    assert free[k].end < at + size ==> IsFree(free, free[k].end);
  }

  /** An allocation fails if and only if no run of free bytes is large enough. */
  lemma FailsIffNoRoom(lo: nat, hi: nat, a: Arena, size: nat)
    requires Tiled(lo, hi, a) && Coalesced(a.free) && size > 0
    ensures !Wraps(a.free, size)
    ensures Alloc(a, size).1.None? <==> !exists at: nat :: FreeRun(a.free, at, size)
  {
    AllocTiles(lo, hi, a, size);
    var i := Fit(a.free, size);
    if i < |a.free| {
      var at := a.free[i].start;
      forall x: nat | at <= x < at + size ensures IsFree(a.free, x) {
        assert a.free[i].start <= x < a.free[i].end;
      }
      assert FreeRun(a.free, at, size);
    } else {
      forall at: nat ensures !FreeRun(a.free, at, size) {
        if FreeRun(a.free, at, size) {
          var _ := RunInOneBlock(lo, hi, a.free, at, size);
        }
      }
    }
  }

  /** An allocation that succeeds takes the lowest address at which that many free bytes begin. */
  lemma AllocTakesLowest(lo: nat, hi: nat, a: Arena, size: nat)
    requires Tiled(lo, hi, a) && Coalesced(a.free) && size > 0
    ensures !Wraps(a.free, size)
    ensures var (b, r) := Alloc(a, size);
            r.Some? ==>
              && FreeRun(a.free, r.value, size)
              && forall at: nat :: at < r.value ==> !FreeRun(a.free, at, size)
  {
    AllocTiles(lo, hi, a, size);
    var i := Fit(a.free, size);
    if i < |a.free| {
      var p := a.free[i].start;
      forall x: nat | p <= x < p + size ensures IsFree(a.free, x) {
        assert a.free[i].start <= x < a.free[i].end;
      }
      forall at: nat | at < p ensures !FreeRun(a.free, at, size) {
        if FreeRun(a.free, at, size) {
          var k := RunInOneBlock(lo, hi, a.free, at, size);
          assert false;
        }
      }
    }
  }

  // ----- releasing everything -----

  /** Once nothing is allocated, in whatever order it went back, the list is the single
      initial block again. */
  lemma EmptyMeansFresh(lo: nat, hi: nat, a: Arena)
    requires lo < hi && Tiled(lo, hi, a) && Coalesced(a.free) && a.used == map[]
    ensures a == Fresh(lo, hi)
  {
    hide Aligned;
    forall x: nat | lo <= x < hi ensures IsFree(a.free, x) { }
    assert FreeRun(a.free, lo, hi - lo);
    var i := RunInOneBlock(lo, hi, a.free, lo, hi - lo);
    assert a.free[i] == Block(lo, hi, hi - lo);
    var k := if i == 0 then |a.free| - 1 else 0;
    assert lo <= a.free[k].start < a.free[k].end <= hi;
  }

  /** Card memory, and what `hbm_getaddr` answers when nothing fits. */
  const HBM_START := 0x1000_0000
  const HBM_END := 0x4_0000_0000
  const HBM_NONE := 4294967295

  function HbmGetAddr(a: Arena, size: nat): nat
    requires !Wraps(a.free, size)
  {
    match Alloc(a, size).1
    case Some(addr) => addr
    case None => HBM_NONE
  }

  /** The failure answer lies inside the card's address range, and is still never an address
      handed out: callers can tell the two apart. */
  lemma HbmFailureIsNoAddress(a: Arena, size: nat)
    requires Tiled(HBM_START, HBM_END, a) && size > 0
    ensures HBM_START <= HBM_NONE < HBM_END
    ensures !Wraps(a.free, size)
    ensures HbmGetAddr(a, size) == HBM_NONE <==> forall i :: 0 <= i < |a.free| ==> a.free[i].length < size
    ensures HbmGetAddr(a, size) != HBM_NONE ==> HbmGetAddr(a, size) !in a.used && Aligned(HbmGetAddr(a, size))
  {
    AllocTakes(HBM_START, HBM_END, a, size);
    AllocTiles(HBM_START, HBM_END, a, size);
    hide RoundMB, Covered, FreeApart, Sorted;
    var i := Fit(a.free, size);
    if i < |a.free| {
      assert Aligned(a.free[i].start);
      assert !Aligned(HBM_NONE);
    }
  }

  // ----- when a release may run off the list -----

  /** The last block of the list still reaches the end of the region. */
  ghost predicate Tail(hi: nat, free: seq<Block>) {
    free != [] && free[|free| - 1].end == hi
  }

  /** While the tail block is there, every live allocation has a block behind it, which is
      what the release dereferences. */
  lemma TailMakesFreeSafe(lo: nat, hi: nat, a: Arena, ps: nat)
    requires Tiled(lo, hi, a) && Tail(hi, a.free) && ps in a.used
    ensures Behind(a.free, ps) < |a.free|
  {
    var last := |a.free| - 1;
    assert a.free[last].end <= ps || ps + a.used[ps] <= a.free[last].start;
  }

  /** Every live allocation can be released if and only if the tail block is there: without
      it, the allocation at the end of the region has no block behind it. */
  lemma FreeSafeIffTail(lo: nat, hi: nat, a: Arena)
    requires lo < hi && Tiled(lo, hi, a) && Coalesced(a.free)
    ensures (forall ps :: ps in a.used ==> Behind(a.free, ps) < |a.free|) <==> Tail(hi, a.free)
  {
    hide Aligned;
    if Tail(hi, a.free) {
      forall ps | ps in a.used ensures Behind(a.free, ps) < |a.free| { TailMakesFreeSafe(lo, hi, a, ps); }
    } else {
      var x: nat := hi - 1;
      assert IsLive(a.used, x);
      var ps :| ps in a.used && ps <= x < ps + a.used[ps];
      assert Behind(a.free, ps) == |a.free|;
    }
  }

  /** For any list, coalesced or not: every live allocation can be released if and only if some
      block stands at or behind the last of them. */
  lemma FreeSafeIffLast(a: Arena, last: nat)
    requires last in a.used && forall ps :: ps in a.used ==> ps <= last
    ensures (forall ps :: ps in a.used ==> Behind(a.free, ps) < |a.free|)
            <==> exists i :: 0 <= i < |a.free| && a.free[i].start >= last
  {
    if i :| 0 <= i < |a.free| && a.free[i].start >= last {
      forall ps | ps in a.used ensures Behind(a.free, ps) < |a.free| { }
    } else {
      assert Behind(a.free, last) == |a.free|;
    }
  }

  lemma TakeTail(lo: nat, hi: nat, free: seq<Block>, i: nat, s: nat)
    requires Shaped(lo, hi, free) && Sorted(free) && Tail(hi, free)
    requires i < |free| && 0 < s <= free[i].length
    ensures Tail(hi, Cut(free, i, s))
    ensures s == free[i].length ==> (Tail(hi, Without(free, i)) <==> i != |free| - 1)
  {
    hide Aligned;
    var last := |free| - 1;
    if i < last {
      assert Without(free, i)[last - 1] == free[last];
    } else if last > 0 {
      assert Without(free, i)[last - 1] == free[last - 1];
    }
  }

  /** Allocation loses the tail block exactly when it consumes all of it. */
  lemma AllocKeepsTail(lo: nat, hi: nat, a: Arena, size: nat)
    requires Tiled(lo, hi, a) && Tail(hi, a.free) && size > 0
    ensures !Wraps(a.free, size)
    ensures Tail(hi, Alloc(a, size).0.free) <==>
              !(Fit(a.free, size) == |a.free| - 1 && a.free[|a.free| - 1].length == size)
  {
    AllocTakes(lo, hi, a, size);
    hide Shaped, Sorted, LiveApart, FreeApart, Covered, RoundMB, Alloc, Wraps, Tail, Cut, Without, Fit;
    var i := Fit(a.free, size);
    if i < |a.free| {
      TakeTail(lo, hi, a.free, i, if a.free[i].length == size then size else RoundMB(size));
    }
  }

  /** Release never loses it. */
  lemma FreeKeepsTail(lo: nat, hi: nat, a: Arena, ps: nat)
    requires Tiled(lo, hi, a) && Tail(hi, a.free) && ps in a.used
    ensures Behind(a.free, ps) < |a.free| && Tail(hi, Free(a, ps).free)
  {
    hide Tiled, Behind, Insert, Drop, Tail;
    TailMakesFreeSafe(lo, hi, a, ps);
    InsertKeepsTail(hi, a.free, Behind(a.free, ps), ps, ps + a.used[ps], a.used[ps]);
  }

  lemma InsertKeepsTail(hi: nat, free: seq<Block>, j: nat, ps: nat, pe: nat, s: nat)
    requires j < |free| && Tail(hi, free)
    ensures Tail(hi, Insert(free, j, ps, pe, s))
  {
  }

  /** Any region taken whole by one request: the list is empty, and releasing the address walks
      off it. */
  lemma WholeRegionCannotBeFreed(lo: nat, hi: nat)
    requires lo < hi && Aligned(lo) && Aligned(hi)
    ensures var a := Fresh(lo, hi);
            && !Wraps(a.free, hi - lo)
            && var (b, r) := Alloc(a, hi - lo);
               r == Some(lo) && lo in b.used && b.free == [] && Behind(b.free, lo) == |b.free|
  {
    var a := Fresh(lo, hi);
    FreshTiles(lo, hi);
    AlignedNeverWraps(lo, hi, a.free, hi - lo);
    assert Fit(a.free, hi - lo) == 0;
    assert Alloc(a, hi - lo).0.free == [];
  }

  /** Card memory in particular. */
  lemma WholeCardCannotBeFreed()
    ensures var a := Fresh(HBM_START, HBM_END);
            && !Wraps(a.free, HBM_END - HBM_START)
            && HBM_START in Alloc(a, HBM_END - HBM_START).0.used
            && Behind(Alloc(a, HBM_END - HBM_START).0.free, HBM_START) == |Alloc(a, HBM_END - HBM_START).0.free|
  {
    WholeRegionCannotBeFreed(HBM_START, HBM_END);
  }

  // ----- requests for no bytes -----

  /** A request for zero bytes reserves nothing: in every state the next request that fits the
      first block gets the same address and takes over its entry in the side table. */
  lemma ZeroSizeAliases(lo: nat, hi: nat, a: Arena, size: nat)
    requires Tiled(lo, hi, a) && a.free != [] && 0 < size <= a.free[0].length
    ensures !Wraps(a.free, 0)
    ensures var (b, r) := Alloc(a, 0);
            && r == Some(a.free[0].start) && b.free == a.free && !Wraps(b.free, size)
            && var (c, q) := Alloc(b, size);
               q == r && c.used.Keys == b.used.Keys
  {
    AlignedNeverWraps(lo, hi, a.free, 0);
    AlignedNeverWraps(lo, hi, a.free, size);
    assert Fit(a.free, 0) == 0 && Fit(a.free, size) == 0;
    assert Alloc(a, 0).0.free == a.free;
  }

  // ----- whole histories -----

  datatype Op = Take(size: nat) | Give(ps: nat)

  /** A call the caller may make: a positive size, or a live address with a block behind it. */
  ghost predicate Allowed(a: Arena, op: Op) {
    match op
    case Take(size) => size > 0 && !Wraps(a.free, size)
    case Give(ps) => ps in a.used && Behind(a.free, ps) < |a.free|
  }

  function Apply(a: Arena, op: Op): Arena
    requires Allowed(a, op)
  {
    match op
    case Take(size) => Alloc(a, size).0
    case Give(ps) => Free(a, ps)
  }

  ghost predicate History(a: Arena, ops: seq<Op>, b: Arena)
    decreases |ops|
  {
    if ops == [] then a == b
    else Allowed(a, ops[0]) && History(Apply(a, ops[0]), ops[1..], b)
  }

  ghost predicate WholeMB(ops: seq<Op>) {
    forall i :: 0 <= i < |ops| && ops[i].Take? ==> ops[i].size % MB == 0
  }

  /** Every history keeps the region tiled; with whole-megabyte requests it also keeps the
      list maximally coalesced, so that an empty side table means the initial list. */
  lemma {:induction false} HistoryTiles(lo: nat, hi: nat, a: Arena, ops: seq<Op>, b: Arena)
    requires lo < hi && Tiled(lo, hi, a) && History(a, ops, b)
    ensures Tiled(lo, hi, b)
    ensures Coalesced(a.free) && WholeMB(ops) ==> Coalesced(b.free) && (b.used == map[] ==> b == Fresh(lo, hi))
    decreases |ops|
  {
    hide Tiled, Coalesced, Wraps, Behind, Fit;
    if ops == [] {
      if Coalesced(a.free) && b.used == map[] { EmptyMeansFresh(lo, hi, b); }
    } else {
      match ops[0]
      case Take(size) =>
        AllocTiles(lo, hi, a, size);
        if Coalesced(a.free) && size % MB == 0 { AllocCoalesces(lo, hi, a, size); }
      case Give(ps) =>
        FreeTiles(lo, hi, a, ps);
        if Coalesced(a.free) { FreeCoalesces(lo, hi, a, ps); }
    }
    if ops != [] { HistoryTiles(lo, hi, Apply(a, ops[0]), ops[1..], b); }
  }

  // ----- which histories are safe -----

  /** A request takes the last block of the list exactly. */
  ghost predicate TakesTail(a: Arena, size: nat) {
    a.free != [] && Fit(a.free, size) == |a.free| - 1 && a.free[|a.free| - 1].length == size
  }

  /** What a caller can see to: requests are positive and spare the last block, and only live
      addresses are released. */
  ghost predicate Sparing(a: Arena, op: Op) {
    match op
    case Take(size) => size > 0 && !TakesTail(a, size)
    case Give(ps) => ps in a.used
  }

  ghost predicate SparingHistory(a: Arena, ops: seq<Op>, b: Arena)
    decreases |ops|
  {
    if ops == [] then a == b
    else Sparing(a, ops[0]) && (Allowed(a, ops[0]) ==> SparingHistory(Apply(a, ops[0]), ops[1..], b))
  }

  lemma SparingStep(lo: nat, hi: nat, a: Arena, op: Op)
    requires lo < hi && Tiled(lo, hi, a) && Tail(hi, a.free) && Sparing(a, op)
    ensures Allowed(a, op) && Tiled(lo, hi, Apply(a, op)) && Tail(hi, Apply(a, op).free)
  {
    match op
    case Take(size) =>
      AllocTiles(lo, hi, a, size);
      AllocKeepsTail(lo, hi, a, size);
      hide Tiled, Tail, Alloc, Wraps, Fit;
    case Give(ps) =>
      FreeKeepsTail(lo, hi, a, ps);
      FreeTiles(lo, hi, a, ps);
      hide Tiled, Tail, Free, Behind;
  }

  /** Over every such history no release ever walks off the list, and at its end every live
      address can still be released. */
  lemma {:induction false} SparingHistoryIsSafe(lo: nat, hi: nat, a: Arena, ops: seq<Op>, b: Arena)
    requires lo < hi && Tiled(lo, hi, a) && Tail(hi, a.free) && SparingHistory(a, ops, b)
    ensures History(a, ops, b) && Tiled(lo, hi, b)
    ensures forall ps :: ps in b.used ==> Behind(b.free, ps) < |b.free|
    decreases |ops|
  {
    hide Tiled, Tail, Allowed, Apply, Sparing, Behind;
    if ops == [] {
      forall ps | ps in b.used ensures Behind(b.free, ps) < |b.free| { TailMakesFreeSafe(lo, hi, b, ps); }
    } else {
      SparingStep(lo, hi, a, ops[0]);
      SparingHistoryIsSafe(lo, hi, Apply(a, ops[0]), ops[1..], b);
    }
  }

  /** The condition cannot be dropped: a whole-megabyte request that does take the last block
      leaves a live address that cannot be released. */
  lemma TakingTailTraps(lo: nat, hi: nat, a: Arena, size: nat) returns (ps: nat)
    requires lo < hi && Tiled(lo, hi, a) && Coalesced(a.free) && Tail(hi, a.free)
    requires size > 0 && size % MB == 0 && TakesTail(a, size)
    ensures !Wraps(a.free, size)
    ensures var b := Alloc(a, size).0; ps in b.used && Behind(b.free, ps) == |b.free|
  {
    AllocKeepsTail(lo, hi, a, size);
    AllocTiles(lo, hi, a, size);
    AllocCoalesces(lo, hi, a, size);
    hide Tiled, Tail, Coalesced, Alloc, Wraps, Fit;
    var b := Alloc(a, size).0;
    FreeSafeIffTail(lo, hi, b);
    ps :| ps in b.used && !(Behind(b.free, ps) < |b.free|);
  }
}
