/** The page pool behind the receive ring when buffers are not recycled but replaced
    (qdma_st_c2h.c): buffers are cut from pages in order, and drained ones are counted back
    against the pages in the same order. Offsets into a page are kept in buffers. */
module PagePool {
  import opened Bits
  import opened Ring

  const ENOMEM := 12

  /** A page of the pool (`struct qdma_sw_pg_sg`): `id` tells allocated pages apart. */
  datatype Page = Page(id: nat, used: nat)

  /** A buffer: a page and a place in it. */
  datatype Buffer = Buffer(page: nat, pos: nat)

  /** Where fill number `t` goes if pages of `per` buffers are used up in order. */
  function BufferOf(t: nat, per: nat): Buffer
    requires per > 0
  {
    Buffer(t / per, t % per)
  }

  function Clamp(x: int, per: nat): nat { if x < 0 then 0 else if x > per then per else x }

  /** Fills of page `j` among the numbers from `from` up to `to`. */
  function Used(j: nat, from: nat, to: nat, per: nat): nat
    requires from <= to
  {
    Clamp(to - j * per, per) - Clamp(from - j * per, per)
  }

  lemma DivIs(t: nat, per: nat, j: nat)
    requires j * per <= t < j * per + per
    ensures per > 0 && t / per == j && t % per == t - j * per
  {
    ModUnique(t, j, t - j * per, per);
  }

  lemma DivBounds(t: nat, per: nat)
    requires per > 0
    ensures t / per * per <= t < t / per * per + per && t % per == t - t / per * per
  {
  }

  lemma DivMono(s: nat, t: nat, per: nat)
    requires per > 0 && s <= t
    ensures s / per <= t / per
  {
    DivBounds(s, per);
    DivBounds(t, per);
    if t / per < s / per { MulMono(t / per + 1, s / per, per); assert false; }
  }

  /** Different fills go to different places. */
  lemma BuffersDistinct(s: nat, t: nat, per: nat)
    requires per > 0 && s != t
    ensures BufferOf(s, per) != BufferOf(t, per)
  {
    DivBounds(s, per);
    DivBounds(t, per);
  }

  /** The pool has room for the buffers of the ring, wherever in a page they begin. */
  ghost predicate Roomy(n: nat, per: nat, pages: nat) {
    per > 0 && n > 0 && pages > 0 && n - 1 <= (pages - 1) * per
  }

  /** Pages that the buffers of the ring would fill. */
  function WholePages(n: nat, per: nat): (w: nat)
    requires n > 0 && per > 0
    ensures w > 0 && n <= w * per
  {
    DivBounds(n, per);
    n / per + (if n % per == 0 then 0 else 1)
  }

  /** `descq_flq_alloc_resource`: how many pages the pool gets. */
  function NumPages(n: nat, per: nat): nat
    requires n > 0 && per > 0
  {
    var p := GetNextPowof2(WholePages(n, per));
    if p < n then 2 * p else p
  }

  /** In numbers: the least power of two that has the buffers of the ring, twice that if it is
      less than one page for every buffer. */
  lemma NumPagesAre(n: nat, per: nat, p: nat)
    requires n > 0 && per > 0
    requires IsPow2(p) && n <= p * per && (forall q: nat :: IsPow2(q) && n <= q * per ==> p <= q)
    ensures NumPages(n, per) == if p < n then 2 * p else p
  {
    hide GetNextPowof2, IsPow2;
    var w := WholePages(n, per);
    RoundedUp(n, per, w);
    LeastWhole(n, per, w, p);
    NextPowof2IsLeast(w);
  }

  lemma LeastWhole(n: nat, per: nat, w: nat, p: nat)
    requires n > 0 && per > 0 && w == WholePages(n, per) && n <= p * per
    ensures w <= p
  {
    DivBounds(n, per);
    assert (w - 1) * per < n;
    if p < w { MulMono(p, w - 1, per); assert false; }
  }

  lemma NumPagesRoomy(n: nat, per: nat)
    requires n > 0 && per > 0
    ensures Roomy(n, per, NumPages(n, per)) && IsPow2(NumPages(n, per))
  {
    hide IsPow2, GetNextPowof2, WholePages;
    RoundedUp(n, per, WholePages(n, per));
    EnoughRoom(n, per, GetNextPowof2(WholePages(n, per)));
  }

  lemma EnoughRoom(n: nat, per: nat, p: nat)
    requires n > 0 && per > 0 && p > 0 && n <= p * per
    ensures p < n ==> n - 1 <= (2 * p - 1) * per
    ensures p >= n ==> n - 1 <= (p - 1) * per
  {
    MulMono(p, 2 * p - 1, per);
    MulMono(1, per, p - 1);
  }

  lemma RoundedUp(n: nat, per: nat, whole: nat)
    requires per > 0 && whole > 0 && n <= whole * per
    ensures GetNextPowof2(whole) >= 1 && n <= GetNextPowof2(whole) * per
    ensures IsPow2(GetNextPowof2(whole)) && IsPow2(2 * GetNextPowof2(whole))
  {
    hide GetNextPowof2;
    NextPowof2IsLeast(whole);
    var k: nat :| GetNextPowof2(whole) == Pow2(k);
    assert 2 * GetNextPowof2(whole) == Pow2(k + 1);
    MulMono(whole, GetNextPowof2(whole), per);
  }

  lemma MaskIsMod(x: nat, p: nat)
    requires IsPow2(p)
    ensures p > 0 && And(x, p - 1) == x % p
  {
    var k: nat :| p == Pow2(k);
    AndMask(x, k);
  }

  /** Pages of one lap sit in different places. */
  lemma PlacesDiffer(i: nat, j: nat, first: nat, p: nat)
    requires p > 0 && first <= i < first + p && first <= j < first + p && i != j
    ensures i % p != j % p
  {
    if i % p == j % p {
      DivBounds(i, p);
      DivBounds(j, p);
      var d := i / p - j / p;
      assert i - j == d * p;
      if d > 0 { MulMono(1, d, p); } else if d < 0 { MulMono(d, -1, p); }
      assert false;
    }
  }

  class Pool {
    const per: nat
    const pages: array<Page>
    const slots: array<Buffer>
    var allocIdx: nat
    var recycleIdx: nat
    /** The id of the next page to be allocated. */
    var nextId: nat
    /** Buffers ever filled and ever given back, and the slot that is refilled next. */
    ghost var filled: nat
    ghost var freed: nat
    ghost var head: nat

    /** Sizes, and the place of each page on the current lap. */
    ghost predicate Config() {
      Roomy(slots.Length, per, pages.Length) && IsPow2(pages.Length)
    }

    ghost predicate PagesAre(from: nat, to: nat)
      reads pages, `recycleIdx
    {
      && from <= to && pages.Length > 0
      && forall j :: recycleIdx <= j < recycleIdx + pages.Length ==>
         pages[j % pages.Length] == Page(j, Used(j, from, to, per))
    }

    ghost predicate SlotsAre(from: nat)
      reads slots, `head
    {
      && per > 0 && head < slots.Length
      && forall k :: 0 <= k < slots.Length ==> slots[RingIdxIncr(head, k, slots.Length)] == BufferOf(from + k, per)
    }

    /** At rest every slot holds one of the last fills, in order. */
    ghost predicate Valid()
      reads this, pages, slots
    {
      && Config() && filled == freed + slots.Length
      && allocIdx == filled / per && recycleIdx == freed / per && nextId == recycleIdx + pages.Length
      && freed <= allocIdx * per
      && PagesAre(freed, filled) && SlotsAre(freed)
    }

    /** `descq_flq_alloc_resource`: allocate the pages and attach a buffer to every slot. */
    constructor (n: nat, per: nat)
      requires n > 0 && per > 0
      ensures Valid() && slots.Length == n && this.per == per && pages.Length == NumPages(n, per)
      ensures freed == 0 && head == 0 && fresh(pages) && fresh(slots)
    {
      hide IsPow2, Used, BufferOf, Clamp, NextFill, Distinct, Roomy;
      NumPagesRoomy(n, per);
      RoomyShape(n, per, NumPages(n, per));
      var p := NumPages(n, per);
      this.per := per;
      pages := new Page[p](k requires k >= 0 => Page(k, 0));
      slots := new Buffer[n];
      allocIdx, recycleIdx, nextId := 0, 0, p;
      filled, freed, head := 0, 0, 0;
      new;
      NoneUsed(per);
      forall j | 0 <= j < p ensures j % p == j && Used(j, 0, 0, per) == 0 {
        ModUnique(j, 0, j, p);
        Unused(j, 0, 0, per);
      }
      StartFilling(0, 0);
      var i := FillAll(0, n, 0, 0, 0);
      DoneFilling(0, 0, n);
      filled := n;
    }

    /** `flq_fill_one`: cut the next buffer from the page at `alloc_idx`. */
    method FillOne(slot: nat) returns (rv: int)
      requires IsPow2(pages.Length) && slot < slots.Length && pages.Length > 0
      modifies pages, slots, `allocIdx
      ensures allocIdx >= old(allocIdx)
      ensures var at := old(allocIdx) % pages.Length;
              var page := old(pages[at]);
              if page.used + 1 > per
              then rv == -ENOMEM && allocIdx == old(allocIdx) && pages[..] == old(pages[..]) &&
                slots[..] == old(slots[..])
              else rv == 0 && slots[..] == old(slots[..])[slot := Buffer(page.id, page.used)]
                   && pages[..] == old(pages[..])[at := page.(used := page.used + 1)]
                   && allocIdx == old(allocIdx) + (if page.used + 2 > per then 1 else 0)
    {
      MaskIsMod(allocIdx, pages.Length);
      var at := And(allocIdx, pages.Length - 1);
      var page := pages[at];
      if page.used + 1 > per {
        return -ENOMEM;
      }
      slots[slot] := Buffer(page.id, page.used);
      pages[at] := page.(used := page.used + 1);
      if page.used + 1 + 1 > per {
        allocIdx := allocIdx + 1;
      }
      rv := 0;
    }

    /** The first loop of `flq_refill_pages`: count `count` drained buffers back, oldest page
        first. */
    method CountBack(count: nat, ghost from: nat, ghost to: nat)
      requires Config() && PagesAre(from, to) && recycleIdx == from / per
      requires from + count < to <= from + slots.Length
      modifies pages
      ensures PagesAre(from + count, to)
    {
      hide IsPow2, Used;
      var i, n := 0, recycleIdx;
      while i < count
        invariant i <= count && n == (from + i) / per && recycleIdx <= n
        invariant PagesAre(from + i, to)
      {
        MaskIsMod(n, pages.Length);
        var at := And(n, pages.Length - 1);
        InLap(from, i, slots.Length, per, pages.Length);
        assert pages[at] == Page(n, Used(n, from + i, to, per));
        var free := if pages[at].used < count - i then pages[at].used else count - i;
        TakenBack(from + i, to, count - i, free, per, n);
        forall j | recycleIdx <= j < recycleIdx + pages.Length && j != n
          ensures j % pages.Length != at && Used(j, from + i + free, to, per) == Used(j, from + i, to, per)
        {
          PlacesDiffer(j, n, recycleIdx, pages.Length);
          UsedElsewhere(j, n, from + i, free, to, per);
        }
        pages[at] := pages[at].(used := pages[at].used - free);
        i := i + free;
        if pages[at].used == 0 {
          n := n + 1;
        }
      }
    }

    /** The second loop of `flq_refill_pages`: replace every page that has been counted back
        whole. */
    method Renew(ghost from: nat, ghost to: nat)
      requires Config() && PagesAre(from, to) && from < to && allocIdx == to / per
      requires recycleIdx <= from / per && nextId == recycleIdx + pages.Length
      requires to <= (recycleIdx + pages.Length) * per
      modifies pages, `recycleIdx, `nextId
      ensures PagesAre(from, to) && recycleIdx == from / per && nextId == recycleIdx + pages.Length
    {
      hide IsPow2, Used;
      var p := pages.Length;
      while true
        invariant PagesAre(from, to) && old(recycleIdx) <= recycleIdx <= from / per && nextId == recycleIdx + p
        decreases from / per - recycleIdx
      {
        MaskIsMod(recycleIdx, p);
        var at := And(recycleIdx, p - 1);
        DivMono(from, to, per);
        assert pages[at] == Page(recycleIdx, Used(recycleIdx, from, to, per));
        Counted(recycleIdx, from, to, per);
        if pages[at].used > 0 || recycleIdx == allocIdx {
          break;
        }
        forall j | recycleIdx < j < recycleIdx + p ensures j % p != at {
          PlacesDiffer(j, recycleIdx, recycleIdx, p);
        }
        NextLap(recycleIdx, p);
        MulMono(old(recycleIdx) + p, recycleIdx + p, per);
        Unused(recycleIdx + p, from, to, per);
        pages[at] := Page(nextId, 0);
        nextId, recycleIdx := nextId + 1, recycleIdx + 1;
      }
    }

    /** The pages while buffers are cut: those before page `a` as they were, fill number `v` next. */
    ghost predicate Filling(a: nat, from: nat, to: nat, v: nat)
      reads pages, `recycleIdx
    {
      && from <= to && pages.Length > 0
      && forall j :: recycleIdx <= j < recycleIdx + pages.Length ==>
           pages[j % pages.Length] == Page(j, if j < a then Used(j, from, to, per) else Clamp(v - j * per, per))
    }

    /** The loop of `qdma_flq_refill`: cut `count` new buffers, from fill number `v` on. No fill
        finds the pool full. */
    method FillAll(start: nat, count: nat, ghost from: nat, ghost to: nat, ghost v: nat) returns (i: nat)
      requires Config() && start < slots.Length && count <= slots.Length
      requires from <= to && recycleIdx == from / per && allocIdx == to / per && v == NextFill(from, to, per)
      requires v + count <= from + slots.Length && Filling(to / per, from, to, v)
      modifies pages, slots, `allocIdx
      ensures i == count && allocIdx == (v + count) / per && Filling(to / per, from, to, v + count)
      ensures forall k :: 0 <= k < slots.Length ==>
                var s := RingIdxIncr(start, k, slots.Length);
                slots[s] == if k < count then BufferOf(v + k, per) else old(slots[s])
    {
      hide IsPow2, Used, BufferOf, Clamp, RingIdxIncr, Roomy;
      RoomyShape(slots.Length, per, pages.Length);
      var idx, n, p := start, slots.Length, pages.Length;
      i := 0;
      NextFillOnPage(from, to, per);
      while i < count
        invariant i <= count && idx == (if start + i <= n then start + i else start + i - n)
        invariant allocIdx == (v + i) / per && Filling(to / per, from, to, v + i)
        invariant forall k :: 0 <= k < n ==>
                    var s := RingIdxIncr(start, k, n);
                    slots[s] == if k < i then BufferOf(v + k, per) else old(slots[s])
      {
        if idx == n {
          idx := 0;
        }
        ghost var a := allocIdx;
        AllocInLap(from, to, v + i, n, per, p);
        FillStep(v + i, per);
        FillsOnePage(recycleIdx, p, a, v + i, per);
        SlotsDiffer(start, i, n);
        var rv := FillOne(idx);
        if rv < 0 {
          break;
        }
        i, idx := i + 1, idx + 1;
      }
    }

    /** The steps of `qdma_flq_refill`: count back, replace pages, cut new buffers. */
    method Replace(start: nat, count: nat, ghost from: nat, ghost to: nat, ghost v: nat) returns (i: nat)
      requires Valid() && start == head && 0 < count < slots.Length
      requires from == freed + count && to == filled && v == NextFill(from, to, per)
      modifies pages, slots, `allocIdx, `recycleIdx, `nextId
      ensures i == count && allocIdx == (v + count) / per && recycleIdx == from / per
      ensures nextId == recycleIdx + pages.Length && Filling(to / per, from, to, v + count)
      ensures forall k :: 0 <= k < slots.Length ==>
                var s := RingIdxIncr(start, k, slots.Length);
                slots[s] == if k < count then BufferOf(v + k, per) else old(slots[s])
    {
      hide IsPow2, Used, BufferOf, Clamp, NextFill, Roomy, Filling;
      var n := slots.Length;
      RoomyShape(n, per, pages.Length);
      Proviso(freed, count, n, per);
      DivMono(freed, from, per);
      InLap(freed, n - 1, n, per, pages.Length);
      CountBack(count, freed, filled);
      Renew(from, to);
      StartFilling(from, to);
      i := FillAll(start, count, from, to, v);
    }

    /** `qdma_flq_refill` without recycling, for `count` drained slots from `start` on: all are
        refilled, with the next fills of the page in use less what was counted back against it.
        Afterwards no two slots share a buffer if and only if nothing was. */
    method Refill(start: nat, count: nat) returns (i: nat)
      requires Valid() && start == head && 0 < count < slots.Length
      modifies this, pages, slots
      ensures i == count
      ensures pages.Length > 0
      ensures forall k :: 0 <= k < slots.Length ==>
                var s := RingIdxIncr(start, k, slots.Length);
                slots[s] == if k < count then BufferOf(NextFill(old(freed) + count, old(filled), per) + k, per)
                            else old(slots[s])
      ensures Distinct(slots[..]) <==> old(pages[allocIdx % pages.Length].used) + count <= slots.Length
      ensures old(pages[allocIdx % pages.Length].used) + count <= slots.Length ==>
                && Valid() && head == RingIdxIncr(start, count, slots.Length)
                && freed == old(freed) + count && filled == old(filled) + count
    {
      hide IsPow2, Used, BufferOf, Clamp, NextFill, Distinct, Roomy, Filling;
      var n := slots.Length;
      RoomyShape(n, per, pages.Length);
      PageInUse(count);
      ghost var from, to := freed + count, filled;
      ghost var v := NextFill(from, to, per);
      Proviso(freed, count, n, per);
      i := Replace(start, count, from, to, v);
      DistinctIff(slots[..], start, count, freed, v, per);
      if v == to {
        DoneFilling(from, to, count);
        freed, filled, head := from, to + count, RingIdxIncr(start, count, n);
        Rotated(slots[..], start, count, from, per);
      }
    }

    /** At rest no two slots share a buffer, and the pages handed out span at most the pool. */
    lemma AtRest()
      requires Valid()
      ensures Distinct(slots[..])
      ensures recycleIdx <= allocIdx <= recycleIdx + pages.Length
    {
      hide IsPow2, Used, BufferOf;
      var n := slots.Length;
      forall s, t | 0 <= s < t < n ensures slots[s] != slots[t] {
        var k := SlotNumber(s, head, n);
        var l := SlotNumber(t, head, n);
        BuffersDistinct(freed + k, freed + l, per);
      }
      DivMono(freed, filled, per);
      InLap(freed, n - 1, n, per, pages.Length);
      DivMono(freed + (n - 1), filled, per);
      DivBounds(filled, per);
      if allocIdx > recycleIdx + pages.Length {
        PageBefore(recycleIdx + pages.Length, allocIdx, per);
        assert false;
      }
    }

    /** The page in use shows how far counting back may go. */
    lemma PageInUse(count: nat)
      requires Valid() && count < slots.Length
      ensures pages.Length > 0 && per > 0
      ensures pages[allocIdx % pages.Length].used + count <= slots.Length <==> filled % per + count <= slots.Length
    {
      hide IsPow2, Used;
      var n, p := slots.Length, pages.Length;
      DivBounds(freed, per);
      DivBounds(filled, per);
      DivMono(freed, filled, per);
      AtRest();
      if allocIdx < recycleIdx + p {
        assert pages[allocIdx % p] == Page(allocIdx, Used(allocIdx, freed, filled, per));
        UsedInUse(freed, filled, per);
      } else {
        NextLap(recycleIdx, p);
        assert pages[allocIdx % p] == Page(recycleIdx, Used(recycleIdx, freed, filled, per));
        UsedWhenFull(freed, n, per, p);
      }
    }

    /** With one buffer to a page every refill is safe. */
    lemma OneBufferPages(count: nat)
      requires Valid() && per == 1 && count < slots.Length
      ensures pages.Length > 0 && pages[allocIdx % pages.Length].used + count <= slots.Length
    {
      PageInUse(count);
      ModUnique(filled, filled, 0, 1);
    }

    lemma ThreeUsed()
      requires Valid() && slots.Length == 3 && per == 4 && freed == 0
      ensures pages.Length > 0 && pages[allocIdx % pages.Length].used == 3
    {
      hide IsPow2;
      AtRest();
      assert pages[allocIdx % pages.Length] == Page(0, Used(0, 0, 3, 4));
    }

    lemma StartFilling(from: nat, to: nat)
      requires per > 0 && PagesAre(from, to)
      ensures Filling(to / per, from, to, NextFill(from, to, per))
    {
      hide Used, Clamp, NextFill;
      forall j | to / per <= j ensures Used(j, from, to, per) == Clamp(NextFill(from, to, per) - j * per, per) {
        StartUsed(j, from, to, per);
      }
    }

    lemma DoneFilling(from: nat, to: nat, count: nat)
      requires per > 0 && Filling(to / per, from, to, to + count) && from <= to / per * per
      ensures PagesAre(from, to + count) && from <= (to + count) / per * per
    {
      hide Used, Clamp;
      forall j | recycleIdx <= j < recycleIdx + pages.Length
        ensures pages[j % pages.Length] == Page(j, Used(j, from, to + count, per))
      {
        DoneUsed(j, from, to, count, per);
      }
      DivMono(to, to + count, per);
      MulMono(to / per, (to + count) / per, per);
    }
  }

  lemma UsedInUse(freed: nat, filled: nat, per: nat)
    requires per > 0 && freed <= filled / per * per && freed <= filled
    ensures Used(filled / per, freed, filled, per) == filled % per
  {
    DivBounds(filled, per);
  }

  /** When the page next in use is still the oldest one, it holds one last buffer. */
  lemma UsedWhenFull(freed: nat, n: nat, per: nat, p: nat)
    requires Roomy(n, per, p) && (freed + n) / per == freed / per + p
    ensures Used(freed / per, freed, freed + n, per) == 1 && (freed + n) % per == 0
  {
    DivBounds(freed, per);
    DivBounds(freed + n, per);
    assert (freed / per + p) * per == freed / per * per + per + (p - 1) * per;
    PageBefore(freed / per, freed / per + p, per);
  }

  lemma RoomyShape(n: nat, per: nat, pages: nat)
    requires Roomy(n, per, pages)
    ensures per > 0 && n > 0 && pages > 0
  {
  }

  lemma NoneUsed(per: nat)
    requires per > 0
    ensures 0 / per == 0 && NextFill(0, 0, per) == 0
  {
    DivIs(0, per, 0);
    Unused(0, 0, 0, per);
  }

  lemma StartUsed(j: nat, from: nat, to: nat, per: nat)
    requires per > 0 && from <= to && to / per <= j
    ensures Used(j, from, to, per) == Clamp(NextFill(from, to, per) - j * per, per)
  {
    hide NextFill;
    DivBounds(to, per);
    if to / per < j {
      PageBefore(to / per, j, per);
      NextFillOnPage(from, to, per);
      UsedNone(from - j * per, to - j * per, per);
      UsedNone(NextFill(from, to, per) - j * per, to - j * per, per);
    } else {
      NextFillIs(from, to, per);
      UsedBounds(from - j * per, to - j * per, per);
    }
  }

  lemma NextFillIs(from: nat, to: nat, per: nat)
    requires per > 0 && from <= to
    ensures NextFill(from, to, per) == to / per * per + Used(to / per, from, to, per)
  {
  }

  lemma UsedNone(x: int, y: int, per: nat)
    requires x <= y <= 0
    ensures Clamp(x, per) == 0 && Clamp(y, per) == 0
  {
  }

  lemma UsedBounds(x: int, y: int, per: nat)
    requires x <= y
    ensures 0 <= Clamp(y, per) - Clamp(x, per) <= per
    ensures Clamp(Clamp(y, per) - Clamp(x, per), per) == Clamp(y, per) - Clamp(x, per)
  {
  }

  lemma DoneUsed(j: nat, from: nat, to: nat, count: nat, per: nat)
    requires per > 0 && from <= to / per * per && from <= to
    ensures Used(j, from, to + count, per) ==
            if j < to / per then Used(j, from, to, per) else Clamp(to + count - j * per, per)
  {
    DivBounds(to, per);
    if j < to / per { PageBefore(j, to / per, per); } else { MulMono(to / per, j, per); }
  }

  /** Whether counting back stays clear of the page in use, in terms of what the caller knows. */
  lemma Proviso(freed: nat, count: nat, n: nat, per: nat)
    requires per > 0 && count < n && freed <= (freed + n) / per * per
    ensures var from, to := freed + count, freed + n;
            && (NextFill(from, to, per) == to <==> to % per + count <= n)
            && (NextFill(from, to, per) == to <==> from <= to / per * per)
            && freed < NextFill(from, to, per) <= to
  {
    DivBounds(freed + n, per);
    NextFillOnPage(freed + count, freed + n, per);
  }

  /** No two slots share a buffer. */
  ghost predicate Distinct(slots: seq<Buffer>) {
    forall k, l :: 0 <= k < l < |slots| ==> slots[k] != slots[l]
  }

  lemma SlotNumber(s: nat, start: nat, n: nat) returns (k: nat)
    requires s < n && start < n
    ensures k < n && RingIdxIncr(start, k, n) == s
  {
    k := if s >= start then s - start else s + n - start;
  }

  /** Slots that hold the fills `v` up to `v + count` and those from `freed + count` on. */
  lemma DistinctIff(slots: seq<Buffer>, start: nat, count: nat, freed: nat, v: nat, per: nat)
    requires per > 0 && start < |slots| && 0 < count < |slots| && freed < v <= freed + |slots|
    requires forall k :: 0 <= k < |slots| ==>
             slots[RingIdxIncr(start, k, |slots|)] == BufferOf(if k < count then v + k else freed + k, per)
    ensures Distinct(slots) <==> v == freed + |slots|
  {
    hide BufferOf;
    var n := |slots|;
    if v == freed + n {
      forall s, t | 0 <= s < t < n ensures slots[s] != slots[t] {
        var k := SlotNumber(s, start, n);
        var l := SlotNumber(t, start, n);
        BuffersDistinct(if k < count then v + k else freed + k, if l < count then v + l else freed + l, per);
      }
    } else {
      // an old fill and a new one with the same number
      var x := if v > freed + count then v else freed + count;
      assert slots[RingIdxIncr(start, x - v, n)] == slots[RingIdxIncr(start, x - freed, n)];
    }
  }

  lemma Rotated(slots: seq<Buffer>, start: nat, count: nat, from: nat, per: nat)
    requires per > 0 && start < |slots| && count < |slots| && count <= from
    requires forall k :: 0 <= k < |slots| ==>
               slots[RingIdxIncr(start, k, |slots|)] ==
                 BufferOf(if k < count then from - count + |slots| + k else from - count + k, per)
    ensures forall k :: 0 <= k < |slots| ==>
            slots[RingIdxIncr(RingIdxIncr(start, count, |slots|), k, |slots|)] == BufferOf(from + k, per)
  {
    hide BufferOf;
    var n, head := |slots|, RingIdxIncr(start, count, |slots|);
    forall k | 0 <= k < n
      ensures RingIdxIncr(head, k, n) == RingIdxIncr(start, if count + k < n then count + k else count + k - n, n)
    {
    }
  }

  /** The fill number that the pool goes on with: that of the next free place on the page of
      `to`, from which what lies before `from` has been counted back. */
  function NextFill(from: nat, to: nat, per: nat): nat
    requires per > 0 && from <= to
  {
    to / per * per + Used(to / per, from, to, per)
  }

  lemma NextFillOnPage(from: nat, to: nat, per: nat)
    requires per > 0 && from <= to
    ensures NextFill(from, to, per) / per == to / per && NextFill(from, to, per) <= to
    ensures NextFill(from, to, per) == if from <= to / per * per then to else to - (from - to / per * per)
  {
    DivBounds(to, per);
    DivIs(NextFill(from, to, per), per, to / per);
  }

  lemma AllocInLap(from: nat, to: nat, v: nat, n: nat, per: nat, pages: nat)
    requires Roomy(n, per, pages) && from <= to && NextFill(from, to, per) <= v < from + n
    ensures from / per <= to / per <= v / per < from / per + pages
  {
    NextFillOnPage(from, to, per);
    DivMono(from, to, per);
    DivMono(NextFill(from, to, per), v, per);
    DivMono(v, from + (n - 1), per);
    InLap(from, n - 1, n, per, pages);
  }

  lemma FillStep(v: nat, per: nat)
    requires per > 0
    ensures v / per * per <= v && Clamp(v - v / per * per, per) == v % per < per
    ensures Clamp(v + 1 - v / per * per, per) == v % per + 1
    ensures (v + 1) / per == v / per + (if v % per + 2 > per then 1 else 0)
    ensures BufferOf(v, per) == Buffer(v / per, v % per)
  {
    DivBounds(v, per);
    NextDiv(v, v / per, per);
  }

  lemma NextDiv(v: nat, q: nat, per: nat)
    requires q * per <= v < q * per + per
    ensures per > 0 && (v + 1) / per == if v + 1 < q * per + per then q else q + 1
  {
    if v + 1 < q * per + per { DivIs(v + 1, per, q); } else { DivIs(v + 1, per, q + 1); }
  }

  /** The next fill concerns the page it is on and no other, in the pool and in numbers. */
  lemma FillsOnePage(first: nat, p: nat, a: nat, v: nat, per: nat)
    requires per > 0 && p > 0 && first <= a < first + p && a == v / per
    ensures forall j :: first <= j < first + p && j != a ==>
              j % p != a % p && Clamp(v + 1 - j * per, per) == Clamp(v - j * per, per)
  {
    hide Clamp;
    forall j | first <= j < first + p && j != a
      ensures j % p != a % p && Clamp(v + 1 - j * per, per) == Clamp(v - j * per, per)
    {
      PlacesDiffer(j, a, first, p);
      FillElsewhere(j, v, per);
    }
  }

  lemma FillElsewhere(j: nat, v: nat, per: nat)
    requires per > 0 && j != v / per
    ensures Clamp(v + 1 - j * per, per) == Clamp(v - j * per, per)
  {
    DivBounds(v, per);
    if j < v / per { PageBefore(j, v / per, per); } else { PageBefore(v / per, j, per); }
  }

  lemma NextLap(j: nat, p: nat)
    requires p > 0
    ensures (j + p) % p == j % p
  {
    DivBounds(j, p);
    ModUnique(j + p, j / p + 1, j % p, p);
  }

  /** A page at or before the one of `from` is all counted back exactly if it comes before. */
  lemma Counted(j: nat, from: nat, to: nat, per: nat)
    requires per > 0 && from < to && j <= from / per
    ensures Used(j, from, to, per) == 0 <==> j < from / per
  {
    DivBounds(from, per);
    if j < from / per { PageBefore(j, from / per, per); }
  }

  lemma Unused(j: nat, from: nat, to: nat, per: nat)
    requires from <= to <= j * per
    ensures Used(j, from, to, per) == 0
  {
  }

  /** Fill number `from + i` lies on a page of the lap that begins with the page of `from`. */
  lemma InLap(from: nat, i: nat, n: nat, per: nat, pages: nat)
    requires Roomy(n, per, pages) && i < n
    ensures from / per <= (from + i) / per < from / per + pages
    ensures from + i < (from / per + pages) * per
  {
    DivBounds(from, per);
    DivBounds(from + i, per);
    DivMono(from, from + i, per);
    assert (from / per + pages) * per == from / per * per + per + (pages - 1) * per;
    if (from + i) / per >= from / per + pages { MulMono(from / per + pages, (from + i) / per, per); assert false; }
  }

  lemma PageBefore(i: nat, j: nat, per: nat)
    requires i < j
    ensures i * per + per <= j * per
  {
    MulMono(i + 1, j, per);
  }

  /** Counting back within page `n` concerns no other page. */
  lemma UsedElsewhere(j: nat, n: nat, from: nat, free: nat, to: nat, per: nat)
    requires n * per <= from <= from + free <= n * per + per && from + free <= to && j != n
    ensures Used(j, from + free, to, per) == Used(j, from, to, per)
  {
    if j < n { PageBefore(j, n, per); } else { PageBefore(n, j, per); }
  }

  /** Counting `free` buffers back against page `n`, the page of fill number `from`. */
  lemma TakenBack(from: nat, to: nat, count: nat, free: nat, per: nat, n: nat)
    requires per > 0 && n == from / per && 0 < count && from + count < to
    requires free == (if Used(n, from, to, per) < count then Used(n, from, to, per) else count)
    ensures 0 < free <= count && n * per <= from <= from + free <= n * per + per
    ensures Used(n, from + free, to, per) == Used(n, from, to, per) - free
    ensures (from + free) / per == if Used(n, from + free, to, per) == 0 then n + 1 else n
  {
    DivBounds(from, per);
    if Used(n, from + free, to, per) == 0 {
      DivIs(from + free, per, n + 1);
    } else {
      DivIs(from + free, per, n);
    }
  }

  /** Three buffers on a page of four, one of them drained: the refill attaches a buffer that is
      still attached. */
  method ThreeOnAPage() returns (pool: Pool)
    ensures fresh(pool) && pool.slots.Length == 3 && pool.per == 4 && !Distinct(pool.slots[..])
  {
    hide Distinct, IsPow2, Used, NumPages, Roomy, Clamp;
    pool := new Pool(3, 4);
    pool.ThreeUsed();
    var i := pool.Refill(0, 1);
  }
}
