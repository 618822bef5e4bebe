/** The huge-page allocator of one device: four slab lists, the first-fit list, and the
    dispatch of `hpalloc` and `hpfree` between them. */
module HostMemory {
  import opened FirstFitModel
  import FirstFitTheorems
  import opened Slab
  import FirstFit

  const BLOCKS := 1024

  /** Block size of slab class `c`: 4 KB, 16 KB, 64 KB, 256 KB. */
  function Bsize(c: nat): (b: nat)
    ensures b > 0
  {
    if c == 0 then 4096 else if c == 1 then 16384 else if c == 2 then 65536 else 262144
  }

  /** Start of class `c` in the region that begins at `hp`; class 4 is the first-fit region. */
  function Start(hp: nat, c: nat): nat {
    hp + (if c == 0 then 0 else if c == 1 then 4 * MB else if c == 2 then 20 * MB
          else if c == 3 then 84 * MB else 340 * MB)
  }

  const LARGE := 16819159040

  function HpEnd(hp: nat): nat { Start(hp, 4) + LARGE }

  /** The region: 1024 blocks of each class from 4 KB on, each class of blocks four times as large,
      one behind the other, then the first-fit part; 4 MB less than the 16 GB mapped. */
  lemma Layout(hp: nat, c: nat)
    requires c < 4
    ensures Start(hp, 0) == hp && Bsize(0) == 4096 && (c < 3 ==> Bsize(c + 1) == 4 * Bsize(c))
    ensures Start(hp, c + 1) == Start(hp, c) + BLOCKS * Bsize(c)
    ensures HpEnd(hp) == hp + 0x4_0000_0000 - 0x40_0000
  {
  }

  /** The unallocated blocks of each class in list order, and the first-fit list. */
  datatype Host = Host(q: seq<seq<nat>>, large: Arena)

  function Addr(hp: nat, c: nat, i: nat): nat {
    AddrOf(Start(hp, c), Bsize(c), i)
  }

  ghost predicate GoodQueue(q: seq<nat>) {
    && (forall k :: 0 <= k < |q| ==> q[k] < BLOCKS)
    && (forall k, l :: 0 <= k < l < |q| ==> q[k] != q[l])
  }

  ghost predicate Inv(hp: nat, h: Host) {
    && Aligned(hp) && |h.q| == 4
    && (forall c :: 0 <= c < 4 ==> GoodQueue(h.q[c]))
    && Tiled(Start(hp, 4), HpEnd(hp), h.large)
  }

  /** Block `i` of class `c` is allocated. */
  ghost predicate Taken(h: Host, c: nat, i: nat) {
    c < |h.q| && c < 4 && i < BLOCKS && i !in h.q[c]
  }

  /** `p` is an address that some call handed out and none took back. */
  ghost predicate Live(hp: nat, h: Host, p: nat) {
    p in h.large.used || exists c: nat, i: nat :: Taken(h, c, i) && p == Addr(hp, c, i)
  }

  /** Class of an address, by the comparisons of `hpfree`. */
  function ClassOf(hp: nat, p: nat): nat {
    if p < Start(hp, 1) then 0
    else if p < Start(hp, 2) then 1
    else if p < Start(hp, 3) then 2
    else if p < Start(hp, 4) then 3
    else 4
  }

  /** Bytes behind a live address that belong to it. */
  function Extent(hp: nat, h: Host, p: nat): nat {
    if p in h.large.used then h.large.used[p] else Bsize(ClassOf(hp, p))
  }

  /** Block addresses of a class stay inside its region. */
  lemma AddrInClass(hp: nat, c: nat, i: nat)
    requires c < 4 && i < BLOCKS
    ensures Start(hp, c) <= Addr(hp, c, i) && Addr(hp, c, i) + Bsize(c) <= Start(hp, c + 1)
    ensures ClassOf(hp, Addr(hp, c, i)) == c
    ensures IndexOf(Start(hp, c), Bsize(c), Addr(hp, c, i)) == i
  {
    IndexOfAddr(Start(hp, c), Bsize(c), i);
    if c == 0 { assert i * 4096 <= 1023 * 4096; }
    else if c == 1 { assert i * 16384 <= 1023 * 16384; }
    else if c == 2 { assert i * 65536 <= 1023 * 65536; }
    else { assert i * 262144 <= 1023 * 262144; }
  }

  lemma AddrsApart(hp: nat, c: nat, i: nat, d: nat, j: nat)
    requires c < 4 && d < 4 && i < BLOCKS && j < BLOCKS && Addr(hp, c, i) < Addr(hp, d, j)
    ensures Addr(hp, c, i) + Bsize(c) <= Addr(hp, d, j)
  {
    AddrInClass(hp, c, i);
    AddrInClass(hp, d, j);
    if c == d {
      StrideApart(i, j, Bsize(c));
    }
  }

  lemma LargeAddr(hp: nat, h: Host, p: nat)
    requires Inv(hp, h) && p in h.large.used
    ensures Start(hp, 4) <= p && 0 < h.large.used[p] && p + h.large.used[p] <= HpEnd(hp)
  {
  }

  /** What a live address is: a first-fit block, or exactly one block of the class that the
      address comparisons name. */
  lemma LiveKinds(hp: nat, h: Host, p: nat)
    requires Inv(hp, h)
    ensures Live(hp, h, p) && p !in h.large.used ==>
              var c := ClassOf(hp, p);
              && c < 4 && Start(hp, c) <= p
              && var i := IndexOf(Start(hp, c), Bsize(c), p);
                 Taken(h, c, i) && p == Addr(hp, c, i)
    ensures p in h.large.used ==> ClassOf(hp, p) == 4
  {
    if Live(hp, h, p) && p !in h.large.used {
      var c: nat, i: nat :| Taken(h, c, i) && p == Addr(hp, c, i);
      AddrInClass(hp, c, i);
    }
    if p in h.large.used { LargeAddr(hp, h, p); }
  }

  /** A live allocation is inside the region. */
  lemma Inside(hp: nat, h: Host, p: nat)
    requires Inv(hp, h) && Live(hp, h, p)
    ensures hp <= p && p + Extent(hp, h, p) <= HpEnd(hp)
    ensures p !in h.large.used ==> p + Extent(hp, h, p) <= Start(hp, 4)
  {
    LiveKinds(hp, h, p);
    if p in h.large.used {
      LargeAddr(hp, h, p);
    } else {
      var c := ClassOf(hp, p);
      AddrInClass(hp, c, IndexOf(Start(hp, c), Bsize(c), p));
    }
  }

  /** Two live allocations are disjoint. */
  lemma Exclusive(hp: nat, h: Host, p: nat, r: nat)
    requires Inv(hp, h) && Live(hp, h, p) && Live(hp, h, r) && p < r
    ensures hp <= p && p + Extent(hp, h, p) <= r && r + Extent(hp, h, r) <= HpEnd(hp)
  {
    Inside(hp, h, p);
    Inside(hp, h, r);
    LiveKinds(hp, h, p);
    LiveKinds(hp, h, r);
    if p in h.large.used { LargeAddr(hp, h, p); }
    if r in h.large.used { LargeAddr(hp, h, r); }
    if p !in h.large.used && r !in h.large.used {
      var c, d := ClassOf(hp, p), ClassOf(hp, r);
      AddrsApart(hp, c, IndexOf(Start(hp, c), Bsize(c), p), d, IndexOf(Start(hp, d), Bsize(d), r));
    }
  }

  // ----- the two calls -----

  /** Slab class that serves a size, or 4. */
  function SlabFor(size: nat): nat {
    if size <= 4096 then 0
    else if size <= 16384 then 1
    else if size <= 65536 then 2
    else if size <= 262144 then 3
    else 4
  }

  /** `hpalloc`: the slab class if it has a block, else the first-fit list. */
  function AllocStep(hp: nat, h: Host, size: nat): (Host, Option<nat>)
    requires |h.q| == 4 && !Wraps(h.large.free, size)
  {
    var c := SlabFor(size);
    if c < 4 && h.q[c] != [] then (h.(q := h.q[c := h.q[c][1..]]), Some(Addr(hp, c, h.q[c][0])))
    else var (a, r) := FirstFitModel.Alloc(h.large, size); (h.(large := a), r)
  }

  /** `hpfree`, dispatching on the side table and on the address. */
  function FreeStep(hp: nat, h: Host, p: nat): Host
    requires |h.q| == 4 && (p in h.large.used ==> Behind(h.large.free, p) < |h.large.free|)
  {
    if p < Start(hp, 0) || p >= HpEnd(hp) then h
    else if p in h.large.used then h.(large := FirstFitModel.Free(h.large, p))
    else
      var c := ClassOf(hp, p);
      if c < 4 && Start(hp, c) <= p then h.(q := h.q[c := h.q[c] + [IndexOf(Start(hp, c), Bsize(c), p)]])
      else h
  }

  /** Exactly `p` became live, and nothing else changed owner or size. */
  ghost predicate Gains(hp: nat, h: Host, g: Host, p: nat) {
    && !Live(hp, h, p) && Live(hp, g, p)
    && (forall x: nat :: x != p ==> (Live(hp, g, x) <==> Live(hp, h, x)))
    && (forall x: nat :: Live(hp, h, x) ==> Extent(hp, g, x) == Extent(hp, h, x))
  }

  lemma PopKeeps(q: seq<nat>)
    requires GoodQueue(q) && q != []
    ensures GoodQueue(q[1..]) && q[0] < BLOCKS && forall i :: i in q <==> i == q[0] || i in q[1..]
    ensures q[0] !in q[1..]
  {
    assert q == [q[0]] + q[1..];
  }

  lemma SlabAllocGains(hp: nat, h: Host, c: nat)
    requires Inv(hp, h) && c < 4 && h.q[c] != []
    ensures var g := h.(q := h.q[c := h.q[c][1..]]);
            Inv(hp, g) && Gains(hp, h, g, Addr(hp, c, h.q[c][0]))
  {
    hide Tiled, GoodQueue, Bsize, Start, Addr, ClassOf;
    var g, i0 := h.(q := h.q[c := h.q[c][1..]]), h.q[c][0];
    var p := Addr(hp, c, i0);
    PopKeeps(h.q[c]);
    AddrInClass(hp, c, i0);
    assert Taken(g, c, i0);
    if Live(hp, h, p) { LiveKinds(hp, h, p); }
    forall x: nat | x != p ensures Live(hp, g, x) <==> Live(hp, h, x) {
      if Live(hp, h, x) && x !in h.large.used {
        var d: nat, i: nat :| Taken(h, d, i) && x == Addr(hp, d, i);
        assert Taken(g, d, i);
      }
      if Live(hp, g, x) && x !in h.large.used {
        var d: nat, i: nat :| Taken(g, d, i) && x == Addr(hp, d, i);
        assert Taken(h, d, i);
      }
    }
  }

  lemma LargeAllocGains(hp: nat, h: Host, size: nat)
    requires Inv(hp, h) && size > 0
    ensures !Wraps(h.large.free, size)
    ensures var (a, r) := FirstFitModel.Alloc(h.large, size);
            var g := h.(large := a);
            && Inv(hp, g) && (r.None? ==> g == h)
            && (r.Some? ==> Gains(hp, h, g, r.value) && Extent(hp, g, r.value) == RoundMB(size))
  {
    hide Tiled, GoodQueue, Bsize, Addr, ClassOf, Wraps, FirstFitModel.Alloc, RoundMB;
    AllocTiles(Start(hp, 4), HpEnd(hp), h.large, size);
    var (a, r) := FirstFitModel.Alloc(h.large, size);
    var g := h.(large := a);
    assert forall c: nat, i: nat :: Taken(g, c, i) <==> Taken(h, c, i);
    if r.Some? {
      var p := r.value;
      LargeAddr(hp, g, p);
      LiveKinds(hp, g, p);
      LiveKinds(hp, h, p);
    }
  }

  /** `hpalloc` hands out an address that was not live, with at least the requested bytes, and
      disturbs no other allocation; when it fails it changes nothing. The one exception is a
      request for no bytes that the first-fit list has to serve. */
  lemma AllocExclusive(hp: nat, h: Host, size: nat)
    requires Inv(hp, h)
    ensures !Wraps(h.large.free, size)
    ensures var (g, r) := AllocStep(hp, h, size);
            && (r.None? ==> g == h)
            && (Inv(hp, g) <==> size > 0 || h.q[0] != [] || r == None)
            && (Inv(hp, g) && r.Some? ==> Gains(hp, h, g, r.value) && Extent(hp, g, r.value) >= size)
  {
    AlignedNeverWraps(Start(hp, 4), HpEnd(hp), h.large.free, size);
    var c := SlabFor(size);
    if c < 4 && h.q[c] != [] {
      SlabAllocGains(hp, h, c);
      PopKeeps(h.q[c]);
      AddrInClass(hp, c, h.q[c][0]);
      var p := Addr(hp, c, h.q[c][0]);
      if p in h.large.used { LargeAddr(hp, h, p); }
    } else if size > 0 {
      LargeAllocGains(hp, h, size);
    } else {
      AllocTiles(Start(hp, 4), HpEnd(hp), h.large, size);
    }
  }

  /** Class `c` is the one whose blocks hold `size` bytes and no smaller class's do. */
  ghost predicate LeastFit(c: nat, size: nat) {
    c < 4 && size <= Bsize(c) && (c > 0 ==> Bsize(c - 1) < size)
  }

  /** No slab class has a block for `size` bytes: none is large enough, or the least one that is
      has given out all of its blocks. */
  ghost predicate NoSlab(h: Host, size: nat) {
    |h.q| == 4 && forall c :: 0 <= c < 4 && LeastFit(c, size) ==> h.q[c] == []
  }

  /** Block `i` of the first-fit list is the first that holds `size` bytes. */
  ghost predicate FirstLarge(free: seq<Block>, i: nat, size: nat) {
    i < |free| && free[i].length >= size && forall k :: 0 <= k < i ==> free[k].length < size
  }

  ghost predicate NoLarge(h: Host, size: nat) {
    forall i :: 0 <= i < |h.large.free| ==> h.large.free[i].length < size
  }

  /** Who serves a request for `size` bytes that leads from `h` to `g`: the least class that fits,
      with the block at the head of its list, as long as it has one; then the first block of the
      first-fit list that is large enough, at its start; then nobody. */
  ghost predicate ServedBy(hp: nat, h: Host, size: nat, g: Host, r: Option<nat>) {
    && |h.q| == 4
    && (r == None <==> NoSlab(h, size) && NoLarge(h, size))
    && (r == None ==> g == h)
    && (forall c :: 0 <= c < 4 && LeastFit(c, size) && h.q[c] != [] ==>
         r == Some(Start(hp, c) + h.q[c][0] * Bsize(c)) && g == h.(q := h.q[c := h.q[c][1..]]))
    && (NoSlab(h, size) ==>
         && g.q == h.q
         && forall i :: 0 <= i < |h.large.free| && FirstLarge(h.large.free, i, size) ==>
              r == Some(h.large.free[i].start))
  }

  lemma LeastFitIs(c: nat, size: nat)
    requires c < 4
    ensures LeastFit(c, size) <==> SlabFor(size) == c
  {
  }

  lemma AllocServedBy(hp: nat, h: Host, size: nat)
    requires |h.q| == 4 && !Wraps(h.large.free, size)
    ensures var (g, r) := AllocStep(hp, h, size); ServedBy(hp, h, size, g, r)
  {
    hide LeastFit, SlabFor, Wraps, RoundMB, Start, Bsize;
    var c, free := SlabFor(size), h.large.free;
    forall d | 0 <= d < 4 ensures LeastFit(d, size) <==> c == d { LeastFitIs(d, size); }
    var i := Fit(free, size);
    assert NoLarge(h, size) <==> i == |free|;
  }

  /** When `hpalloc` fails, who serves otherwise, and where the address then lies: in the region
      of the slab class, or behind all of them. */
  lemma AllocFrom(hp: nat, h: Host, size: nat)
    requires Inv(hp, h)
    ensures !Wraps(h.large.free, size)
    ensures var (g, r) := AllocStep(hp, h, size);
            && ServedBy(hp, h, size, g, r)
            && (forall c :: 0 <= c < 4 && LeastFit(c, size) && h.q[c] != [] ==>
                 r.Some? && Start(hp, c) <= r.value && r.value + Bsize(c) <= Start(hp, c + 1))
            && (NoSlab(h, size) && r.Some? ==> Start(hp, 4) <= r.value)
  {
    hide LeastFit, SlabFor, Start, Bsize, Covered, LiveApart, FreeApart, Sorted;
    AlignedNeverWraps(Start(hp, 4), HpEnd(hp), h.large.free, size);
    AllocServedBy(hp, h, size);
    forall c | 0 <= c < 4 && h.q[c] != []
      ensures h.q[c][0] < BLOCKS && Start(hp, c) <= Addr(hp, c, h.q[c][0]) &&
              Addr(hp, c, h.q[c][0]) + Bsize(c) <= Start(hp, c + 1)
    {
      AddrInClass(hp, c, h.q[c][0]);
    }
  }

  /** Exactly `p` stopped being live, and nothing else changed owner or size. */
  ghost predicate Loses(hp: nat, h: Host, g: Host, p: nat) {
    && (forall x: nat :: Live(hp, g, x) <==> Live(hp, h, x) && x != p)
    && (forall x: nat :: Live(hp, g, x) ==> Extent(hp, g, x) == Extent(hp, h, x))
  }

  lemma SlabFreeLoses(hp: nat, h: Host, c: nat, i0: nat)
    requires Inv(hp, h) && Taken(h, c, i0)
    ensures var g := h.(q := h.q[c := h.q[c] + [i0]]);
            Inv(hp, g) && Loses(hp, h, g, Addr(hp, c, i0))
  {
    hide Tiled, Bsize, Start, Addr, ClassOf;
    var g := h.(q := h.q[c := h.q[c] + [i0]]);
    var p := Addr(hp, c, i0);
    AddrInClass(hp, c, i0);
    if p in h.large.used { LiveKinds(hp, h, p); }
    forall x: nat ensures Live(hp, g, x) <==> Live(hp, h, x) && x != p {
      if Live(hp, h, x) && x !in h.large.used && x != p {
        var d: nat, i: nat :| Taken(h, d, i) && x == Addr(hp, d, i);
        assert Taken(g, d, i);
      }
      if Live(hp, g, x) && x !in h.large.used {
        var d: nat, i: nat :| Taken(g, d, i) && x == Addr(hp, d, i);
        AddrInClass(hp, d, i);
        assert Taken(h, d, i);
      }
    }
  }

  lemma LargeFreeLoses(hp: nat, h: Host, p: nat)
    requires Inv(hp, h) && p in h.large.used && Behind(h.large.free, p) < |h.large.free|
    ensures var g := h.(large := FirstFitModel.Free(h.large, p));
            Inv(hp, g) && Loses(hp, h, g, p)
  {
    hide Tiled, GoodQueue, Bsize, Addr, Behind, FirstFitModel.Free;
    FreeTiles(Start(hp, 4), HpEnd(hp), h.large, p);
    FreeDrops(h.large, p);
    var g := h.(large := FirstFitModel.Free(h.large, p));
    assert forall c: nat, i: nat :: Taken(g, c, i) <==> Taken(h, c, i);
    LiveKinds(hp, h, p);
    assert p !in g.large.used;
    if Live(hp, g, p) { LiveKinds(hp, g, p); }
  }

  /** `hpfree` returns a live address to the class that produced it: exactly that allocation
      ends, whatever size was asked for and whichever list served it. */
  lemma FreeExact(hp: nat, h: Host, p: nat)
    requires Inv(hp, h) && Live(hp, h, p)
    requires p in h.large.used ==> Behind(h.large.free, p) < |h.large.free|
    ensures var g := FreeStep(hp, h, p); Inv(hp, g) && Loses(hp, h, g, p)
    ensures p in h.large.used ==> FreeStep(hp, h, p).q == h.q
    ensures p !in h.large.used ==>
              var c := ClassOf(hp, p);
              && c < 4 && Start(hp, c) <= p && FreeStep(hp, h, p).large == h.large
              && FreeStep(hp, h, p).q == h.q[c := h.q[c] + [IndexOf(Start(hp, c), Bsize(c), p)]]
  {
    hide Inv, Live, Loses, Behind, FirstFitModel.Free, Addr, IndexOf, Bsize, Taken;
    InvQueues(hp, h);
    LiveKinds(hp, h, p);
    if p in h.large.used {
      LargeAddr(hp, h, p);
      LargeFreeLoses(hp, h, p);
    } else {
      var c := ClassOf(hp, p);
      var i := IndexOf(Start(hp, c), Bsize(c), p);
      InClass(h, c, i);
      AddrInClass(hp, c, i);
      SlabFreeLoses(hp, h, c, i);
    }
  }

  lemma InvQueues(hp: nat, h: Host)
    requires Inv(hp, h)
    ensures |h.q| == 4
  {
  }

  lemma InClass(h: Host, c: nat, i: nat)
    requires Taken(h, c, i)
    ensures c < 4 && i < BLOCKS
  {
  }

  // ----- whole histories -----

  datatype Call = Malloc(size: nat) | Release(p: nat)

  /** What a caller may do: ask for memory, and release live addresses that have a free block
      of the first-fit list behind them if that list produced them. */
  ghost predicate Allowed(hp: nat, h: Host, call: Call) {
    |h.q| == 4 &&
    match call
    case Malloc(size) => !Wraps(h.large.free, size) && (size > 0 || h.q[0] != [])
    case Release(p) => Live(hp, h, p) && (p in h.large.used ==> Behind(h.large.free, p) < |h.large.free|)
  }

  function Step(hp: nat, h: Host, call: Call): Host
    requires Allowed(hp, h, call)
  {
    match call
    case Malloc(size) => AllocStep(hp, h, size).0
    case Release(p) => FreeStep(hp, h, p)
  }

  ghost predicate Run(hp: nat, h: Host, calls: seq<Call>, g: Host)
    decreases |calls|
  {
    if calls == [] then h == g
    else Allowed(hp, h, calls[0]) && Run(hp, Step(hp, h, calls[0]), calls[1..], g)
  }

  /** As `init_freelist` leaves it. */
  function Initial(hp: nat): Host {
    var all := seq(BLOCKS, i => i);
    Host([all, all, all, all], Arena([Block(Start(hp, 4), HpEnd(hp), LARGE)], map[]))
  }

  lemma InitialInv(hp: nat)
    requires Aligned(hp)
    ensures Inv(hp, Initial(hp)) && forall p: nat :: !Live(hp, Initial(hp), p)
  {
    FirstFitTheorems.FreshTiles(Start(hp, 4), HpEnd(hp));
    var h := Initial(hp);
    forall c: nat, i: nat ensures !Taken(h, c, i) {
      if c < 4 && i < BLOCKS { assert h.q[c][i] == i; }
    }
  }

  // ----- what callers asked for -----

  /** The sizes asked for of the addresses handed out and not released. */
  function Ask(hp: nat, h: Host, asked: map<nat, nat>, call: Call): map<nat, nat>
    requires Allowed(hp, h, call)
  {
    match call
    case Malloc(size) =>
      var r := AllocStep(hp, h, size).1;
      if r.Some? then asked[r.value := size] else asked
    case Release(p) => asked - {p}
  }

  function AskedOver(hp: nat, h: Host, asked: map<nat, nat>, calls: seq<Call>, g: Host): map<nat, nat>
    requires Run(hp, h, calls, g)
    decreases |calls|
  {
    if calls == [] then asked
    else AskedOver(hp, Step(hp, h, calls[0]), Ask(hp, h, asked, calls[0]), calls[1..], g)
  }

  /** Exactly those addresses are live, each with at least the bytes asked for. */
  ghost predicate Served(hp: nat, h: Host, asked: map<nat, nat>) {
    && (forall p: nat :: Live(hp, h, p) <==> p in asked)
    && (forall p: nat :: Live(hp, h, p) && p in asked ==> Extent(hp, h, p) >= asked[p])
  }

  lemma StepServes(hp: nat, h: Host, asked: map<nat, nat>, call: Call)
    requires Inv(hp, h) && Served(hp, h, asked) && Allowed(hp, h, call)
    ensures Inv(hp, Step(hp, h, call)) && Served(hp, Step(hp, h, call), Ask(hp, h, asked, call))
  {
    hide Inv, Live, Extent, AllocStep, FreeStep, Behind, Wraps;
    match call
    case Malloc(size) => AllocExclusive(hp, h, size);
    case Release(p) => FreeExact(hp, h, p);
  }

  lemma {:induction false} RunServes(hp: nat, h: Host, asked: map<nat, nat>, calls: seq<Call>, g: Host)
    requires Inv(hp, h) && Served(hp, h, asked) && Run(hp, h, calls, g)
    ensures Inv(hp, g) && Served(hp, g, AskedOver(hp, h, asked, calls, g))
    decreases |calls|
  {
    hide Inv, Served, Allowed, Step, Ask;
    if calls != [] {
      StepServes(hp, h, asked, calls[0]);
      RunServes(hp, Step(hp, h, calls[0]), Ask(hp, h, asked, calls[0]), calls[1..], g);
    }
  }

  /** After every history of calls the live addresses are those handed out and not released; each
      has the bytes asked for inside the region, and no two overlap. */
  lemma HistoryExclusive(hp: nat, calls: seq<Call>, g: Host, p: nat, r: nat)
    requires Aligned(hp) && Run(hp, Initial(hp), calls, g)
    ensures var asked := AskedOver(hp, Initial(hp), map[], calls, g);
            && (Live(hp, g, p) <==> p in asked)
            && (p in asked ==> asked[p] <= Extent(hp, g, p) && hp <= p && p + Extent(hp, g, p) <= HpEnd(hp))
            && (p in asked && r in asked && p < r ==> p + Extent(hp, g, p) <= r)
  {
    hide Inv, Live, Extent, AskedOver, Run, HpEnd;
    InitialInv(hp);
    RunServes(hp, Initial(hp), map[], calls, g);
    if Live(hp, g, p) {
      Inside(hp, g, p);
      if Live(hp, g, r) && p < r { Exclusive(hp, g, p, r); }
    }
  }

  /** What a caller can see to: positive sizes, releases of live addresses, and no request that
      takes the last block of the first-fit list exactly. */
  ghost predicate Sparing(hp: nat, h: Host, call: Call) {
    |h.q| == 4 &&
    match call
    case Malloc(size) =>
      size > 0 && (SlabFor(size) == 4 || h.q[SlabFor(size)] == [] ==> !FirstFitTheorems.TakesTail(h.large, size))
    case Release(p) => Live(hp, h, p)
  }

  ghost predicate SparingRun(hp: nat, h: Host, calls: seq<Call>, g: Host)
    decreases |calls|
  {
    if calls == [] then h == g
    else Sparing(hp, h, calls[0]) && (Allowed(hp, h, calls[0]) ==> SparingRun(hp, Step(hp, h, calls[0]), calls[1..], g))
  }

  ghost predicate Whole(hp: nat, h: Host) {
    Inv(hp, h) && FirstFitTheorems.Tail(HpEnd(hp), h.large.free)
  }

  lemma StartsWhole(hp: nat)
    requires Aligned(hp)
    ensures Whole(hp, Initial(hp))
  {
    InitialInv(hp);
    FirstFitTheorems.FreshTiles(Start(hp, 4), HpEnd(hp));
  }

  lemma SparingStep(hp: nat, h: Host, call: Call)
    requires Whole(hp, h) && Sparing(hp, h, call)
    ensures Allowed(hp, h, call) && Whole(hp, Step(hp, h, call))
  {
    hide FirstFitTheorems.Tail, FirstFitTheorems.TakesTail, Tiled, GoodQueue, Live, Bsize, Addr, ClassOf, Behind,
      Wraps, FirstFitModel.Alloc, FirstFitModel.Free, Start;
    StartOfLarge(hp);
    match call
    case Malloc(size) =>
      AllocExclusive(hp, h, size);
      if SlabFor(size) == 4 || h.q[SlabFor(size)] == [] {
        FirstFitTheorems.AllocKeepsTail(Start(hp, 4), HpEnd(hp), h.large, size);
        SpareIs(HpEnd(hp), h.large, size);
      }
    case Release(p) =>
      if p in h.large.used {
        FirstFitTheorems.FreeKeepsTail(Start(hp, 4), HpEnd(hp), h.large, p);
      }
      FreeExact(hp, h, p);
  }

  lemma SpareIs(hi: nat, a: Arena, size: nat)
    requires FirstFitTheorems.Tail(hi, a.free)
    ensures a.free != []
    ensures FirstFitTheorems.TakesTail(a, size) <==>
            Fit(a.free, size) == |a.free| - 1 && a.free[|a.free| - 1].length == size
  {
  }

  lemma {:induction false} SparingRunKeeps(hp: nat, h: Host, calls: seq<Call>, g: Host)
    requires Whole(hp, h) && SparingRun(hp, h, calls, g)
    ensures Run(hp, h, calls, g) && Whole(hp, g)
    decreases |calls|
  {
    hide Whole, Sparing, Allowed, Step;
    if calls != [] {
      SparingStep(hp, h, calls[0]);
      SparingRunKeeps(hp, Step(hp, h, calls[0]), calls[1..], g);
    }
  }

  /** Over every such history from the start no release walks off a list, and at its end every
      live address can still be released. */
  lemma SparingRunIsSafe(hp: nat, calls: seq<Call>, g: Host)
    requires Aligned(hp) && SparingRun(hp, Initial(hp), calls, g)
    ensures Run(hp, Initial(hp), calls, g)
    ensures forall p: nat :: Live(hp, g, p) ==> Allowed(hp, g, Release(p))
  {
    hide FirstFitTheorems.Tail, Tiled, GoodQueue, Sparing, SparingRun, Run, Behind, Start, Live, Initial;
    InitialInv(hp);
    StartsWhole(hp);
    SparingRunKeeps(hp, Initial(hp), calls, g);
    forall p: nat | Live(hp, g, p) && p in g.large.used ensures Behind(g.large.free, p) < |g.large.free| {
      FirstFitTheorems.TailMakesFreeSafe(Start(hp, 4), HpEnd(hp), g.large, p);
    }
  }

  /** The first-fit region of a device, taken whole by one request, cannot be released. */
  lemma LargeRegionCannotBeFreed(hp: nat)
    requires Aligned(hp)
    ensures var h := Initial(hp);
            && !Wraps(h.large.free, LARGE)
            && var (g, r) := AllocStep(hp, h, LARGE);
               r == Some(Start(hp, 4)) && Live(hp, g, Start(hp, 4)) &&
                 Behind(g.large.free, Start(hp, 4)) == |g.large.free|
  {
    FirstFitTheorems.WholeRegionCannotBeFreed(Start(hp, 4), HpEnd(hp));
  }

  // ----- the structure itself -----

  lemma StartOfLarge(hp: nat)
    ensures HpEnd(hp) == Start(hp, 4) + LARGE
  {
  }

  /** `MemFL`: the four slab lists and the first-fit list of one device. */
  class MemFL {
    const hp: nat
    const slabs: seq<SlabList>
    const large: FirstFit.FreeList

    static predicate Apart(s: SlabList, t: SlabList) {
      s != t && s.next != t.next && s.next != t.prev && s.prev != t.next && s.prev != t.prev
    }

    static ghost predicate SlabOk(hp: nat, s: SlabList, c: nat)
      reads s, s.next, s.prev
    {
      s.Valid() && s.base == Start(hp, c) && s.bsize == Bsize(c) && s.count == BLOCKS
    }

    ghost predicate Valid()
      reads slabs, set s | s in slabs :: s.next, set s | s in slabs :: s.prev, large, large.spine
    {
      && |slabs| == 4
      && (forall c, d :: 0 <= c < d < 4 ==> Apart(slabs[c], slabs[d]))
      && (forall c :: 0 <= c < 4 ==> SlabOk(hp, slabs[c], c))
      && large.Linked()
    }

    ghost function View(): Host
      requires |slabs| == 4
      reads slabs, large
    {
      Host([slabs[0].Queue(), slabs[1].Queue(), slabs[2].Queue(), slabs[3].Queue()], large.View())
    }

    static method NewSlab(hp: nat, c: nat) returns (s: SlabList)
      ensures SlabOk(hp, s, c) && s.Queue() == seq(BLOCKS, i => i)
      ensures fresh(s) && fresh(s.next) && fresh(s.prev) && s.next != s.prev
    {
      hide SlabList.Queue;
      s := new SlabList(Start(hp, c), Bsize(c), BLOCKS);
    }

    static method NewSlabs(hp: nat) returns (slabs: seq<SlabList>)
      ensures |slabs| == 4 && forall c, d :: 0 <= c < d < 4 ==> Apart(slabs[c], slabs[d])
      ensures forall c :: 0 <= c < 4 ==> SlabOk(hp, slabs[c], c) && slabs[c].Queue() == seq(BLOCKS, i => i)
    {
      hide SlabOk, Start, Bsize, SlabList.Queue;
      var s0 := NewSlab(hp, 0);
      var s1 := NewSlab(hp, 1);
      var s2 := NewSlab(hp, 2);
      var s3 := NewSlab(hp, 3);
      slabs := [s0, s1, s2, s3];
    }

    /** `init_freelist`, over the region that starts at `hp`. */
    constructor (hp: nat)
      ensures Valid() && this.hp == hp && View() == Initial(hp)
    {
      hide SlabOk, Apart, Start, Bsize, SlabList.Queue, FirstFit.FreeList.Linked;
      StartOfLarge(hp);
      this.hp := hp;
      var s := NewSlabs(hp);
      slabs := s;
      large := new FirstFit.FreeList(Start(hp, 4), HpEnd(hp));
    }

    /** One slab class: `o1fl_alloc` to `o4fl_alloc`. */
    method SlabAlloc(c: nat) returns (r: Option<nat>)
      requires Valid() && c < 4
      modifies slabs[c], slabs[c].next, slabs[c].prev
      ensures Valid() && old(View()).large == View().large
      ensures var q := old(View()).q[c];
              if q == [] then r == None && View().q == old(View()).q
              else r == Some(Addr(hp, c, q[0])) && View().q == old(View()).q[c := q[1..]]
    {
      hide Start, Bsize, AddrOf, SlabList.Valid, SlabList.Queue, FirstFit.FreeList.Linked;
      r := slabs[c].Alloc();
    }

    /** The first-fit list: `o5fl_alloc`. */
    method LargeAlloc(size: nat) returns (r: Option<nat>)
      requires Valid() && !Wraps(large.free, size)
      modifies large, large.spine
      ensures Valid() && View().q == old(View()).q
      ensures (View().large, r) == FirstFitModel.Alloc(old(View()).large, size)
    {
      hide Start, Bsize, SlabList.Valid, SlabList.Queue, FirstFit.FreeList.Linked, FirstFitModel.Alloc, Wraps;
      r := large.Alloc(size);
    }

    method HpAlloc(size: nat) returns (r: Option<nat>)
      requires Valid() && !Wraps(large.free, size)
      modifies slabs, set s | s in slabs :: s.next, set s | s in slabs :: s.prev, large, large.spine
      ensures Valid() && (View(), r) == AllocStep(hp, old(View()), size)
      ensures ServedBy(hp, old(View()), size, View(), r)
    {
      hide SlabOk, Apart, SlabList.Queue, FirstFitModel.Alloc, Wraps, Addr, ServedBy;
      AllocServedBy(hp, View(), size);
      ghost var h := View();
      r := None;
      if size <= 4096 {
        r := SlabAlloc(0);
      } else if size <= 16384 {
        r := SlabAlloc(1);
      } else if size <= 65536 {
        r := SlabAlloc(2);
      } else if size <= 262144 {
        r := SlabAlloc(3);
      }
      if r == None {
        assert View() == h;
        r := LargeAlloc(size);
      }
    }

    /** `o1fl_free` to `o4fl_free`, for a block of class `c`. */
    method SlabFree(c: nat, p: nat)
      requires Valid() && c < 4 && Start(hp, c) <= p && IndexOf(Start(hp, c), Bsize(c), p) < BLOCKS
      requires IndexOf(Start(hp, c), Bsize(c), p) !in View().q[c]
      modifies slabs[c], slabs[c].next, slabs[c].prev
      ensures Valid() && old(View()).large == View().large
      ensures View().q == old(View()).q[c := old(View()).q[c] + [IndexOf(Start(hp, c), Bsize(c), p)]]
    {
      hide Start, Bsize, IndexOf, SlabList.Valid, SlabList.Queue, FirstFit.FreeList.Linked;
      slabs[c].Free(p);
    }

    method LargeFree(p: nat)
      requires Valid() && p in large.used && Behind(large.free, p) < |large.free|
      modifies large, large.spine
      ensures Valid() && View().q == old(View()).q && View().large == FirstFitModel.Free(old(View()).large, p)
    {
      hide Start, Bsize, SlabList.Valid, SlabList.Queue, FirstFit.FreeList.Linked, FirstFitModel.Free, Behind;
      large.Free(p);
    }

    method HpFree(p: nat)
      requires Valid() && Inv(hp, View()) && (Live(hp, View(), p) || p < hp || HpEnd(hp) <= p)
      requires p in large.used ==> Behind(large.free, p) < |large.free|
      modifies slabs, set s | s in slabs :: s.next, set s | s in slabs :: s.prev, large, large.spine
      ensures Valid() && View() == FreeStep(hp, old(View()), p)
      ensures p < hp || HpEnd(hp) <= p ==> View() == old(View())
    {
      hide SlabOk, Apart, SlabList.Queue, FirstFitModel.Free, Behind, Addr, Inv, IndexOf, Live,
        FirstFit.FreeList.Linked;
      LiveKinds(hp, View(), p);
      if p < Start(hp, 0) || p >= HpEnd(hp) {
        return;
      } else if p in large.used {
        LargeFree(p);
      } else if p < Start(hp, 1) {
        SlabFree(0, p);
      } else if p < Start(hp, 2) {
        SlabFree(1, p);
      } else if p < Start(hp, 3) {
        SlabFree(2, p);
      } else if p < Start(hp, 4) {
        SlabFree(3, p);
      }
    }
  }
}
