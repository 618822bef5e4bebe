/** The first-fit coalescing allocator behind `o5fl_alloc`/`o5fl_free` (host memory) and
    `hbm_getaddr`/`hbm_free` (card memory), as values: a list of free blocks and a side table
    of live allocations. The two copies in the source differ only in their region. */
module FirstFitModel {
  import opened Bits

  const MB := 1024 * 1024

  datatype Option<T> = None | Some(value: T)

  datatype Block = Block(start: nat, end: nat, length: nat)

  datatype Arena = Arena(free: seq<Block>, used: map<nat, nat>)

  /** `ceil(size / 1024 / 1024) * 1024 * 1024`. */
  function RoundMB(size: nat): (s: nat)
    ensures s >= size && s % MB == 0 && s < size + MB
    ensures size % MB == 0 ==> s == size
  {
    ((size + MB - 1) / MB) * MB
  }

  /** Index of the first block that is large enough, or the length of the list. */
  function Fit(free: seq<Block>, size: nat): (i: nat)
    ensures i <= |free|
    ensures forall k :: 0 <= k < i ==> free[k].length < size
    ensures i < |free| ==> free[i].length >= size
  {
    if free == [] || free[0].length >= size then 0 else 1 + Fit(free[1..], size)
  }

  /** Index of the first block at or behind an address, or the length of the list. */
  function Behind(free: seq<Block>, ps: nat): (j: nat)
    ensures j <= |free|
    ensures forall k :: 0 <= k < j ==> free[k].start < ps
    ensures j < |free| ==> free[j].start >= ps
  {
    if free == [] || free[0].start >= ps then 0 else 1 + Behind(free[1..], ps)
  }

  /** A block that can give `size` bytes without its length wrapping around. */
  ghost predicate Wraps(free: seq<Block>, size: nat) {
    var i := Fit(free, size);
    i < |free| && free[i].length > size && RoundMB(size) > free[i].length
  }

  /** Allocation: an exact fit is unlinked, a larger block gives up whole megabytes at its
      start, and the size recorded is what was taken. */
  function Alloc(a: Arena, size: nat): (Arena, Option<nat>)
    requires !Wraps(a.free, size)
  {
    var i := Fit(a.free, size);
    if i == |a.free| then (a, None)
    else
      var b := a.free[i];
      if b.length == size then
        (Arena(a.free[..i] + a.free[i + 1..], a.used[b.start := size]), Some(b.start))
      else
        var s := RoundMB(size);
        (Arena(a.free[i := Block(b.start + s, b.end, b.length - s)], a.used[b.start := s]), Some(b.start))
  }

  /** The free list after [ps, pe) goes back in front of block `j`. */
  function Insert(free: seq<Block>, j: nat, ps: nat, pe: nat, s: nat): seq<Block>
    requires j < |free|
  {
    var p2 := free[j];
    if j == 0 || ps != free[j - 1].end then
      if pe == p2.start then free[j := p2.(start := ps, length := p2.length + s)]
      else free[..j] + [Block(ps, pe, s)] + free[j..]
    else
      var p1 := free[j - 1];
      if pe == p2.start then
        free[..j - 1] + [p1.(end := p2.end, length := p1.length + s + p2.length)] + free[j + 1..]
      else free[j - 1 := p1.(end := pe, length := p1.length + s)]
  }

  function Drop(used: map<nat, nat>, ps: nat): map<nat, nat> {
    map q | q in used && q != ps :: used[q]
  }

  function Free(a: Arena, ps: nat): Arena
    requires ps in a.used && Behind(a.free, ps) < |a.free|
  {
    var s := a.used[ps];
    Arena(Insert(a.free, Behind(a.free, ps), ps, ps + s, s), Drop(a.used, ps))
  }

  /** Releasing an address takes its entry, and only its entry, out of the side table. */
  lemma FreeDrops(a: Arena, ps: nat)
    requires ps in a.used && Behind(a.free, ps) < |a.free|
    ensures forall q :: q in Free(a, ps).used <==> q in a.used && q != ps
    ensures forall q :: q in Free(a, ps).used ==> Free(a, ps).used[q] == a.used[q]
  {
  }

  // ----- invariants -----

  predicate Aligned(x: nat) {
    x % MB == 0
  }

  /** Blocks are intervals of the region with megabyte boundaries. */
  ghost predicate Shaped(lo: nat, hi: nat, free: seq<Block>) {
    forall i :: 0 <= i < |free| ==>
      var b := free[i];
      lo <= b.start <= b.end <= hi && b.start + b.length == b.end && Aligned(b.start) && Aligned(b.end)
  }

  /** Blocks lie one behind the other; only an empty block may stand out of order. */
  ghost predicate Sorted(free: seq<Block>) {
    forall i, j :: 0 <= i < j < |free| ==> free[j].length == 0 || free[i].end <= free[j].start
  }

  ghost predicate LiveApart(lo: nat, hi: nat, used: map<nat, nat>) {
    && (forall p :: p in used ==> used[p] > 0 && lo <= p && p + used[p] <= hi && Aligned(p) && Aligned(p + used[p]))
    && (forall p, q :: p in used && q in used && p < q ==> p + used[p] <= q)
  }

  ghost predicate FreeApart(free: seq<Block>, used: map<nat, nat>) {
    forall i, p :: 0 <= i < |free| && p in used ==>
      free[i].end <= p || p + used[p] <= free[i].start || free[i].length == 0
  }

  ghost predicate IsFree(free: seq<Block>, x: nat) {
    exists i :: 0 <= i < |free| && free[i].start <= x < free[i].end
  }

  ghost predicate IsLive(used: map<nat, nat>, x: nat) {
    exists p :: p in used && p <= x < p + used[p]
  }

  ghost predicate Covered(lo: nat, hi: nat, a: Arena) {
    forall x: nat :: lo <= x < hi ==> IsFree(a.free, x) || IsLive(a.used, x)
  }

  /** Free blocks and live allocations tile the region: every byte has exactly one owner. */
  ghost predicate Tiled(lo: nat, hi: nat, a: Arena) {
    && Shaped(lo, hi, a.free) && Sorted(a.free) && LiveApart(lo, hi, a.used)
    && FreeApart(a.free, a.used) && Covered(lo, hi, a)
  }

  /** Maximally coalesced: non-empty blocks with a gap between any two. */
  ghost predicate Coalesced(free: seq<Block>) {
    && (forall i :: 0 <= i < |free| ==> free[i].length > 0)
    && (forall i, j :: 0 <= i < j < |free| ==> free[i].end < free[j].start)
  }

  // ----- allocation keeps the tiling -----

  /** Of a length in whole megabytes, at least `size`, the megabytes around `size` can be taken. */
  lemma RoundFits(length: nat, size: nat)
    requires length % MB == 0 && size <= length
    ensures size <= RoundMB(size) <= length && RoundMB(size) % MB == 0
    ensures length == size ==> RoundMB(size) == size
  {
    var q, r := length / MB, size / MB;
    assert length == q * MB;
    if size % MB == 0 {
      ModUnique(size + MB - 1, r, MB - 1, MB);
    } else {
      ModUnique(size + MB - 1, r + 1, size % MB - 1, MB);
    }
  }

  lemma AlignedLength(start: nat, end: nat, length: nat)
    requires Aligned(start) && Aligned(end) && start + length == end
    ensures length % MB == 0
  {
    var q, r := start / MB, end / MB;
    ModUnique(length, r - q, 0, MB);
  }

  lemma AlignedPlus(start: nat, s: nat)
    requires Aligned(start) && s % MB == 0
    ensures Aligned(start + s)
  {
    ModUnique(start + s, start / MB + s / MB, 0, MB);
  }

  lemma AlignedNeverWraps(lo: nat, hi: nat, free: seq<Block>, size: nat)
    requires Shaped(lo, hi, free)
    ensures !Wraps(free, size)
  {
    hide Aligned, RoundMB;
    var i := Fit(free, size);
    if i < |free| && free[i].length > size {
      AlignedLength(free[i].start, free[i].end, free[i].length);
      RoundFits(free[i].length, size);
    }
  }

  /** The list with block `i` unlinked or cut. */
  function Without(free: seq<Block>, i: nat): seq<Block>
    requires i < |free|
  {
    free[..i] + free[i + 1..]
  }

  function Cut(free: seq<Block>, i: nat, s: nat): seq<Block>
    requires i < |free| && s <= free[i].length
  {
    free[i := Block(free[i].start + s, free[i].end, free[i].length - s)]
  }

  /** Taking the first `s` bytes of block `i` out of the list. */
  ghost predicate Takes(before: seq<Block>, after: seq<Block>, i: nat, s: nat) {
    && i < |before| && 0 < s <= before[i].length && Aligned(before[i].start + s)
    && (after == Cut(before, i, s) || (s == before[i].length && after == Without(before, i)))
  }

  lemma AllocTakes(lo: nat, hi: nat, a: Arena, size: nat)
    requires Shaped(lo, hi, a.free) && size > 0
    ensures !Wraps(a.free, size)
    ensures Alloc(a, size).1.None? ==>
              Alloc(a, size).0 == a && forall i :: 0 <= i < |a.free| ==> a.free[i].length < size
    ensures Alloc(a, size).1.Some? ==>
              var (b, r) := Alloc(a, size);
              var i := Fit(a.free, size);
              && i < |a.free| && r.value == a.free[i].start
              && Takes(a.free, b.free, i, RoundMB(size)) && b.used == a.used[r.value := RoundMB(size)]
              && b.free == if a.free[i].length == size then Without(a.free, i) else Cut(a.free, i, RoundMB(size))
  {
    hide Shaped, Aligned, RoundMB;
    AlignedNeverWraps(lo, hi, a.free, size);
    var i := Fit(a.free, size);
    if i < |a.free| { AlignedTake(lo, hi, a.free, i, size); }
  }

  /** What a block that is large enough gives up. */
  lemma AlignedTake(lo: nat, hi: nat, free: seq<Block>, i: nat, size: nat)
    requires Shaped(lo, hi, free) && i < |free| && 0 < size <= free[i].length
    ensures 0 < RoundMB(size) <= free[i].length && Aligned(free[i].start + RoundMB(size))
    ensures free[i].length == size ==> RoundMB(size) == size
  {
    hide Aligned, RoundMB;
    AlignedLength(free[i].start, free[i].end, free[i].length);
    RoundFits(free[i].length, size);
    AlignedPlus(free[i].start, RoundMB(size));
  }

  lemma TakeShapes(lo: nat, hi: nat, before: seq<Block>, after: seq<Block>, i: nat, s: nat)
    requires Shaped(lo, hi, before) && Sorted(before) && Takes(before, after, i, s)
    ensures Shaped(lo, hi, after) && Sorted(after)
  {
    hide Aligned;
  }

  lemma TakeApart(lo: nat, hi: nat, before: seq<Block>, after: seq<Block>, i: nat, s: nat, used: map<nat, nat>)
    requires Shaped(lo, hi, before) && Sorted(before) && Takes(before, after, i, s)
    requires LiveApart(lo, hi, used) && FreeApart(before, used)
    ensures before[i].start !in used && LiveApart(lo, hi, used[before[i].start := s])
    ensures FreeApart(after, used[before[i].start := s])
  {
    hide Aligned;
    var p, used' := before[i].start, used[before[i].start := s];
    forall q | q in used ensures q + used[q] <= p || p + s <= q {
      assert before[i].end <= q || q + used[q] <= before[i].start;
    }
    forall k, q | 0 <= k < |after| && q in used'
      ensures after[k].end <= q || q + used'[q] <= after[k].start || after[k].length == 0
    {
      var k0 := if after != Cut(before, i, s) && k >= i then k + 1 else k;
      if q == p && k0 < i {
        assert before[k0].end <= p;
      } else if q == p && i < k0 {
        assert before[i].end <= before[k0].start || before[k0].length == 0;
      }
    }
  }

  lemma TakeCovers(lo: nat, hi: nat, a: Arena, after: seq<Block>, i: nat, s: nat)
    requires Shaped(lo, hi, a.free) && Takes(a.free, after, i, s) && Covered(lo, hi, a)
    requires a.free[i].start !in a.used
    ensures Covered(lo, hi, Arena(after, a.used[a.free[i].start := s]))
  {
    hide Aligned;
    var p, used' := a.free[i].start, a.used[a.free[i].start := s];
    forall x: nat | lo <= x < hi
      ensures IsFree(after, x) || IsLive(used', x)
    {
      if p <= x < p + s {
        assert p in used';
      } else if IsLive(a.used, x) {
        var q :| q in a.used && q <= x < q + a.used[q];
        assert q in used' && used'[q] == a.used[q];
      } else {
        var k :| 0 <= k < |a.free| && a.free[k].start <= x < a.free[k].end;
        var k' := if after != Cut(a.free, i, s) && k > i then k - 1 else k;
        assert 0 <= k' < |after| && after[k'].start <= x < after[k'].end;
      }
    }
  }

  /** A successful allocation hands out an address that was free, of the size recorded, and the
      region stays tiled; a failed one changes nothing. */
  lemma AllocTiles(lo: nat, hi: nat, a: Arena, size: nat)
    requires Tiled(lo, hi, a)
    ensures !Wraps(a.free, size)
    ensures var (b, r) := Alloc(a, size);
            && (Tiled(lo, hi, b) <==> size > 0 || r.None?)
            && (r.None? ==> b == a)
            && (r.Some? && size > 0 ==> r.value !in a.used && b.used == a.used[r.value := RoundMB(size)])
  {
    hide Shaped, Sorted, LiveApart, FreeApart, Covered, Takes, RoundMB;
    AlignedNeverWraps(lo, hi, a.free, size);
    var (b, r) := Alloc(a, size);
    if size == 0 {
      if r.Some? { NothingTaken(lo, hi, b.used, r.value); }
    } else if r.Some? {
      AllocTakes(lo, hi, a, size);
      var i, s := Fit(a.free, size), RoundMB(size);
      TakeShapes(lo, hi, a.free, b.free, i, s);
      TakeApart(lo, hi, a.free, b.free, i, s, a.used);
      TakeCovers(lo, hi, a, b.free, i, s);
    }
  }

  lemma NothingTaken(lo: nat, hi: nat, used: map<nat, nat>, p: nat)
    requires p in used && used[p] == 0
    ensures !LiveApart(lo, hi, used)
  {
  }

  /** Whole-megabyte requests keep the list maximally coalesced. */
  lemma AllocCoalesces(lo: nat, hi: nat, a: Arena, size: nat)
    requires Tiled(lo, hi, a) && Coalesced(a.free) && size > 0 && size % MB == 0
    ensures !Wraps(a.free, size) && Coalesced(Alloc(a, size).0.free)
  {
    hide Shaped, Sorted, LiveApart, FreeApart, Covered, Takes, Coalesced, Cut, Without, Alloc, Wraps, RoundMB, Fit;
    AllocTakes(lo, hi, a, size);
    var i := Fit(a.free, size);
    if i < |a.free| {
      WholeRound(size);
      if a.free[i].length == size { WithoutCoalesces(a.free, i); } else { CutCoalesces(a.free, i, size); }
    }
  }

  lemma WholeRound(size: nat)
    requires size % MB == 0
    ensures RoundMB(size) == size
  {
  }

  lemma CutCoalesces(free: seq<Block>, i: nat, s: nat)
    requires Coalesced(free) && i < |free| && s < free[i].length
    ensures Coalesced(Cut(free, i, s))
  {
  }

  lemma WithoutCoalesces(free: seq<Block>, i: nat)
    requires Coalesced(free) && i < |free|
    ensures Coalesced(Without(free, i))
  {
  }

  // ----- release keeps the tiling -----

  /** [ps, pe) fits into the gap in front of block `j`. */
  ghost predicate Gap(lo: nat, hi: nat, free: seq<Block>, j: nat, ps: nat, pe: nat) {
    && j < |free| && lo <= ps < pe <= hi && Aligned(ps) && Aligned(pe)
    && (forall i :: 0 <= i < j ==> free[i].end <= ps)
    && (forall k :: j <= k < |free| ==> free[k].length == 0 || pe <= free[k].start)
    && (j > 0 && free[j - 1].end == ps ==> free[j - 1].length > 0)
  }

  lemma ReleaseGap(lo: nat, hi: nat, a: Arena, ps: nat)
    requires Tiled(lo, hi, a) && ps in a.used && Behind(a.free, ps) < |a.free|
    ensures Gap(lo, hi, a.free, Behind(a.free, ps), ps, ps + a.used[ps])
  {
    hide Aligned, Covered, Behind;
    var j, pe := Behind(a.free, ps), ps + a.used[ps];
    forall i | 0 <= i < |a.free| ensures GapAt(a.free, j, ps, pe, i) { ReleaseGapAt(lo, hi, a, ps, i); }
    hide Shaped, Sorted, FreeApart;
    forall i | 0 <= i < j ensures a.free[i].end <= ps { assert GapAt(a.free, j, ps, pe, i); }
    forall k | j <= k < |a.free| ensures a.free[k].length == 0 || pe <= a.free[k].start {
      assert GapAt(a.free, j, ps, pe, k);
    }
    if j > 0 { StartsBefore(lo, hi, a.free, ps); }
  }

  lemma ReleaseGapAt(lo: nat, hi: nat, a: Arena, ps: nat, i: nat)
    requires Shaped(lo, hi, a.free) && Sorted(a.free) && FreeApart(a.free, a.used)
    requires ps in a.used && Behind(a.free, ps) < |a.free| && i < |a.free|
    ensures GapAt(a.free, Behind(a.free, ps), ps, ps + a.used[ps], i)
  {
    hide Aligned, Behind;
    var j := Behind(a.free, ps);
    assert a.free[i].end <= ps || ps + a.used[ps] <= a.free[i].start || a.free[i].length == 0;
    if i < j {
      assert a.free[i].start < ps;
    } else if i > j && a.free[i].length > 0 {
      assert a.free[j].end <= a.free[i].start;
    }
  }

  /** A block before the place of `ps` that touches it is not empty. */
  lemma StartsBefore(lo: nat, hi: nat, free: seq<Block>, ps: nat)
    requires Shaped(lo, hi, free) && Behind(free, ps) > 0
    ensures var b := free[Behind(free, ps) - 1]; b.end == ps ==> b.length > 0
  {
    hide Aligned, Behind;
    assert free[Behind(free, ps) - 1].start < ps;
  }

  /** Block `i` keeps clear of [ps, pe), on its side of place `j`. */
  ghost predicate GapAt(free: seq<Block>, j: nat, ps: nat, pe: nat, i: nat)
    requires i < |free|
  {
    if i < j then free[i].end <= ps else free[i].length == 0 || pe <= free[i].start
  }

  // The four shapes of `Insert` are one plain insertion followed by up to two joins of
  // neighbours that touch.

  function Put(free: seq<Block>, j: nat, ps: nat, pe: nat): seq<Block>
    requires j <= |free| && ps <= pe
  {
    free[..j] + [Block(ps, pe, pe - ps)] + free[j..]
  }

  ghost predicate Touch(free: seq<Block>, i: nat) {
    i + 1 < |free| && free[i].end == free[i + 1].start && free[i].length > 0
  }

  function Join(free: seq<Block>, i: nat): seq<Block>
    requires i + 1 < |free|
  {
    free[..i] + [Block(free[i].start, free[i + 1].end, free[i].length + free[i + 1].length)] + free[i + 2..]
  }

  lemma GapFacts(lo: nat, hi: nat, free: seq<Block>, j: nat, ps: nat, pe: nat)
    requires Gap(lo, hi, free, j, ps, pe)
    ensures j < |free| && ps < pe && (j > 0 && free[j - 1].end == ps ==> free[j - 1].length > 0)
  {
  }

  lemma PutShape(free: seq<Block>, j: nat, ps: nat, pe: nat)
    requires j <= |free| && ps <= pe
    ensures var put := Put(free, j, ps, pe);
            && |put| == |free| + 1 && put[j] == Block(ps, pe, pe - ps)
            && (forall k :: 0 <= k < j ==> put[k] == free[k])
            && (forall k :: j < k < |put| ==> put[k] == free[k - 1])
  {
  }

  lemma PutThenRight(free: seq<Block>, j: nat, ps: nat, pe: nat)
    requires j < |free| && ps <= pe == free[j].start
    ensures Join(Put(free, j, ps, pe), j) == free[j := Block(ps, free[j].end, pe - ps + free[j].length)]
  {
    var put := Put(free, j, ps, pe);
    assert put[..j] == free[..j] && put[j + 2..] == free[j + 1..];
  }

  lemma PutThenLeft(free: seq<Block>, j: nat, ps: nat, pe: nat)
    requires 0 < j <= |free| && ps <= pe
    ensures Join(Put(free, j, ps, pe), j - 1) ==
            free[j - 1 := Block(free[j - 1].start, pe, free[j - 1].length + (pe - ps))]
  {
    var put := Put(free, j, ps, pe);
    assert put[..j - 1] == free[..j - 1] && put[j + 1..] == free[j..];
  }

  lemma RightThenLeft(free: seq<Block>, j: nat, b: Block)
    requires 0 < j < |free|
    ensures Join(free[j := b], j - 1) ==
            free[..j - 1] + [Block(free[j - 1].start, b.end, free[j - 1].length + b.length)] + free[j + 1..]
  {
    assert free[j := b][..j - 1] == free[..j - 1] && free[j := b][j + 1..] == free[j + 1..];
  }

  /** The list after plain insertion and a join with the block behind. */
  function PutRight(free: seq<Block>, j: nat, ps: nat, pe: nat): seq<Block>
    requires j < |free| && ps <= pe
  {
    if pe == free[j].start then Join(Put(free, j, ps, pe), j) else Put(free, j, ps, pe)
  }

  lemma PutRightShape(free: seq<Block>, j: nat, ps: nat, pe: nat)
    requires j < |free| && ps <= pe
    ensures var right := PutRight(free, j, ps, pe);
            && |right| > j && right[j].start == ps && (j > 0 ==> right[j - 1] == free[j - 1])
  {
    PutShape(free, j, ps, pe);
    if pe == free[j].start { PutThenRight(free, j, ps, pe); }
  }

  lemma InsertCases(free: seq<Block>, j: nat, ps: nat, pe: nat)
    requires j < |free| && ps <= pe
    ensures |PutRight(free, j, ps, pe)| > j
    ensures var right := PutRight(free, j, ps, pe);
            Insert(free, j, ps, pe, pe - ps) == if j > 0 && ps == free[j - 1].end then Join(right, j - 1) else right
  {
    PutRightShape(free, j, ps, pe);
    hide Join, Put;
    if pe == free[j].start {
      PutThenRight(free, j, ps, pe);
      if j > 0 { RightThenLeft(free, j, Block(ps, free[j].end, pe - ps + free[j].length)); }
    } else if j > 0 {
      PutThenLeft(free, j, ps, pe);
    }
    if j == 0 || ps != free[j - 1].end { PlainPut(free, j, ps, pe); }
  }

  lemma PlainPut(free: seq<Block>, j: nat, ps: nat, pe: nat)
    requires j < |free| && ps <= pe
    ensures Put(free, j, ps, pe) == free[..j] + [Block(ps, pe, pe - ps)] + free[j..]
  {
  }

  lemma InsertIsPutAndJoins(lo: nat, hi: nat, free: seq<Block>, j: nat, ps: nat, pe: nat)
    requires Shaped(lo, hi, free) && Gap(lo, hi, free, j, ps, pe)
    ensures j < |free| && ps < pe
    ensures var put, right := Put(free, j, ps, pe), PutRight(free, j, ps, pe);
            && |put| > j && put[j] == Block(ps, pe, pe - ps)
            && (Touch(put, j) <==> pe == free[j].start)
            && right == (if pe == free[j].start then Join(put, j) else put)
            && |right| > j
            && (j > 0 ==> (Touch(right, j - 1) <==> ps == free[j - 1].end))
            && Insert(free, j, ps, pe, pe - ps) == if j > 0 && ps == free[j - 1].end then Join(right, j - 1) else right
  {
    hide Shaped, Gap, Insert, Join, Put;
    GapFacts(lo, hi, free, j, ps, pe);
    PutShape(free, j, ps, pe);
    PutRightShape(free, j, ps, pe);
    InsertCases(free, j, ps, pe);
  }

  lemma PutShapes(lo: nat, hi: nat, free: seq<Block>, j: nat, ps: nat, pe: nat)
    requires Shaped(lo, hi, free) && Sorted(free) && Gap(lo, hi, free, j, ps, pe)
    ensures Shaped(lo, hi, Put(free, j, ps, pe)) && Sorted(Put(free, j, ps, pe))
  {
    hide Aligned;
  }

  lemma JoinShapes(lo: nat, hi: nat, free: seq<Block>, i: nat)
    requires Shaped(lo, hi, free) && Sorted(free) && Touch(free, i)
    ensures Shaped(lo, hi, Join(free, i)) && Sorted(Join(free, i))
  {
    hide Aligned;
  }

  lemma PutApart(lo: nat, hi: nat, free: seq<Block>, j: nat, ps: nat, used: map<nat, nat>)
    requires ps in used && LiveApart(lo, hi, used) && FreeApart(free, used) && j <= |free|
    ensures FreeApart(Put(free, j, ps, ps + used[ps]), Drop(used, ps)) && LiveApart(lo, hi, Drop(used, ps))
  {
    hide Aligned;
    var put := Put(free, j, ps, ps + used[ps]);
    forall i, q | 0 <= i < |put| && q in used && q != ps
      ensures put[i].end <= q || q + used[q] <= put[i].start || put[i].length == 0
    {
      assert put[i] == if i < j then free[i] else if i == j then Block(ps, ps + used[ps], used[ps]) else free[i - 1];
    }
  }

  lemma JoinApart(lo: nat, hi: nat, free: seq<Block>, i: nat, used: map<nat, nat>)
    requires Shaped(lo, hi, free) && Touch(free, i) && LiveApart(lo, hi, used) && FreeApart(free, used)
    ensures FreeApart(Join(free, i), used)
  {
    hide Aligned;
    var after := Join(free, i);
    forall k, q | 0 <= k < |after| && q in used
      ensures after[k].end <= q || q + used[q] <= after[k].start || after[k].length == 0
    {
      assert free[i].end <= q || q + used[q] <= free[i].start;
      assert free[i + 1].end <= q || q + used[q] <= free[i + 1].start;
      if k > i { assert after[k] == free[k + 1]; }
    }
  }

  lemma PutCovers(lo: nat, hi: nat, a: Arena, j: nat, ps: nat)
    requires ps in a.used && Covered(lo, hi, a) && j <= |a.free|
    ensures Covered(lo, hi, Arena(Put(a.free, j, ps, ps + a.used[ps]), Drop(a.used, ps)))
  {
    var put, used' := Put(a.free, j, ps, ps + a.used[ps]), Drop(a.used, ps);
    forall x: nat | lo <= x < hi
      ensures IsFree(put, x) || IsLive(used', x)
    {
      if ps <= x < ps + a.used[ps] {
        assert put[j].start <= x < put[j].end;
      } else if IsLive(a.used, x) {
        var q :| q in a.used && q <= x < q + a.used[q];
        assert q in used' && used'[q] == a.used[q];
      } else {
        var k :| 0 <= k < |a.free| && a.free[k].start <= x < a.free[k].end;
        assert put[if k < j then k else k + 1] == a.free[k];
      }
    }
  }

  lemma JoinCovers(lo: nat, hi: nat, a: Arena, i: nat)
    requires Shaped(lo, hi, a.free) && Touch(a.free, i) && Covered(lo, hi, a)
    ensures Covered(lo, hi, Arena(Join(a.free, i), a.used))
  {
    hide Aligned;
    var after := Join(a.free, i);
    forall x: nat | lo <= x < hi
      ensures IsFree(after, x) || IsLive(a.used, x)
    {
      if IsFree(a.free, x) {
        var k :| 0 <= k < |a.free| && a.free[k].start <= x < a.free[k].end;
        if k == i || k == i + 1 {
          assert after[i].start <= x < after[i].end;
        } else {
          assert after[if k < i then k else k - 1] == a.free[k];
        }
      }
    }
  }

  lemma JoinTiles(lo: nat, hi: nat, a: Arena, i: nat)
    requires Tiled(lo, hi, a) && Touch(a.free, i)
    ensures Tiled(lo, hi, Arena(Join(a.free, i), a.used))
  {
    hide Shaped, Sorted, LiveApart, FreeApart, Covered, Touch;
    assert i + 1 < |a.free| by { TouchInside(a.free, i); }
    JoinShapes(lo, hi, a.free, i);
    JoinApart(lo, hi, a.free, i, a.used);
    JoinCovers(lo, hi, a, i);
  }

  lemma TouchInside(free: seq<Block>, i: nat)
    requires Touch(free, i)
    ensures i + 1 < |free|
  {
  }

  lemma PutTiles(lo: nat, hi: nat, a: Arena, j: nat, ps: nat)
    requires Tiled(lo, hi, a) && ps in a.used && j <= |a.free| && Gap(lo, hi, a.free, j, ps, ps + a.used[ps])
    ensures Tiled(lo, hi, Arena(Put(a.free, j, ps, ps + a.used[ps]), Drop(a.used, ps)))
  {
    hide Shaped, Sorted, LiveApart, FreeApart, Covered, Gap, Put, Drop;
    PutShapes(lo, hi, a.free, j, ps, ps + a.used[ps]);
    PutApart(lo, hi, a.free, j, ps, a.used);
    PutCovers(lo, hi, a, j, ps);
  }

  lemma InsertTiles(lo: nat, hi: nat, a: Arena, j: nat, ps: nat)
    requires Tiled(lo, hi, a) && ps in a.used && j < |a.free| && Gap(lo, hi, a.free, j, ps, ps + a.used[ps])
    ensures Tiled(lo, hi, Arena(Insert(a.free, j, ps, ps + a.used[ps], a.used[ps]), Drop(a.used, ps)))
  {
    hide Shaped, Sorted, LiveApart, FreeApart, Covered, Gap, Insert, Put, Drop, Join, Touch;
    var pe, used' := ps + a.used[ps], Drop(a.used, ps);
    var put := Put(a.free, j, ps, pe);
    PutTiles(lo, hi, a, j, ps);
    assert Shaped(lo, hi, a.free);
    InsertIsPutAndJoins(lo, hi, a.free, j, ps, pe);
    if pe == a.free[j].start {
      TouchInside(put, j);
      JoinTiles(lo, hi, Arena(put, used'), j);
    }
    var right := if pe == a.free[j].start then Join(put, j) else put;
    if j > 0 && ps == a.free[j - 1].end { JoinTiles(lo, hi, Arena(right, used'), j - 1); }
  }

  /** Giving a live allocation back keeps the region tiled. */
  lemma FreeTiles(lo: nat, hi: nat, a: Arena, ps: nat)
    requires Tiled(lo, hi, a) && ps in a.used && Behind(a.free, ps) < |a.free|
    ensures Tiled(lo, hi, Free(a, ps))
  {
    hide Tiled, Gap, Insert, Drop, Behind;
    ReleaseGap(lo, hi, a, ps);
    InsertTiles(lo, hi, a, Behind(a.free, ps), ps);
  }

  /** Only the two neighbours can touch what goes in between them. */
  ghost predicate StrictGap(free: seq<Block>, j: nat, ps: nat, pe: nat) {
    && j < |free| && ps < pe && Coalesced(free)
    && (forall i :: 0 <= i < |free| ==> free[i].start < free[i].end)
    && (forall i :: 0 <= i < j ==> free[i].end <= ps && (i != j - 1 ==> free[i].end < ps))
    && (forall k :: j <= k < |free| ==> pe <= free[k].start && (k != j ==> pe < free[k].start))
  }

  lemma GapIsStrict(lo: nat, hi: nat, free: seq<Block>, j: nat, ps: nat, pe: nat)
    requires Shaped(lo, hi, free) && Coalesced(free) && Gap(lo, hi, free, j, ps, pe)
    ensures StrictGap(free, j, ps, pe)
  {
    hide Aligned;
    if j > 0 { assert forall i :: 0 <= i < j - 1 ==> free[i].end < free[j - 1].start; }
    assert forall k :: j < k < |free| ==> free[j].end < free[k].start;
  }

  lemma GrownCoalesces(free: seq<Block>, j: nat, ps: nat, pe: nat)
    requires StrictGap(free, j, ps, pe)
    ensures pe == free[j].start && (j == 0 || ps != free[j - 1].end) ==>
              Coalesced(free[j := free[j].(start := ps, length := free[j].length + (pe - ps))])
    ensures j > 0 && ps == free[j - 1].end && pe != free[j].start ==>
              Coalesced(free[j - 1 := free[j - 1].(end := pe, length := free[j - 1].length + (pe - ps))])
  {
  }

  lemma LinkedCoalesces(free: seq<Block>, j: nat, ps: nat, pe: nat)
    requires StrictGap(free, j, ps, pe) && pe != free[j].start && (j == 0 || ps != free[j - 1].end)
    ensures Coalesced(free[..j] + [Block(ps, pe, pe - ps)] + free[j..])
  {
    var after := free[..j] + [Block(ps, pe, pe - ps)] + free[j..];
    assert forall i :: 0 <= i < |after| ==>
           after[i] == if i < j then free[i] else if i == j then Block(ps, pe, pe - ps) else free[i - 1];
  }

  lemma MergedCoalesces(free: seq<Block>, j: nat, ps: nat, pe: nat)
    requires StrictGap(free, j, ps, pe) && 0 < j && ps == free[j - 1].end && pe == free[j].start
    ensures Coalesced(free[..j - 1] +
              [free[j - 1].(end := free[j].end,
                length := free[j - 1].length + (pe - ps) + free[j].length)] + free[j + 1..])
  {
    var one := free[j - 1].(end := free[j].end, length := free[j - 1].length + (pe - ps) + free[j].length);
    var after := free[..j - 1] + [one] + free[j + 1..];
    assert forall i :: 0 <= i < |after| ==>
           after[i] == if i < j - 1 then free[i] else if i == j - 1 then one else free[i + 1];
  }

  lemma InsertCoalesces(lo: nat, hi: nat, free: seq<Block>, j: nat, ps: nat, pe: nat)
    requires Shaped(lo, hi, free) && Coalesced(free) && Gap(lo, hi, free, j, ps, pe)
    ensures Coalesced(Insert(free, j, ps, pe, pe - ps))
  {
    hide Shaped, Gap, Coalesced;
    GapIsStrict(lo, hi, free, j, ps, pe);
    if j > 0 && ps == free[j - 1].end && pe == free[j].start {
      MergedCoalesces(free, j, ps, pe);
    } else if (j > 0 && ps == free[j - 1].end) || pe == free[j].start {
      GrownCoalesces(free, j, ps, pe);
    } else {
      LinkedCoalesces(free, j, ps, pe);
    }
  }

  /** Giving an allocation back leaves no two free blocks touching. */
  lemma FreeCoalesces(lo: nat, hi: nat, a: Arena, ps: nat)
    requires Tiled(lo, hi, a) && Coalesced(a.free) && ps in a.used && Behind(a.free, ps) < |a.free|
    ensures Coalesced(Free(a, ps).free)
  {
    hide Sorted, LiveApart, FreeApart, Covered, Gap, Insert, Coalesced, Shaped, Behind;
    ReleaseGap(lo, hi, a, ps);
    InsertCoalesces(lo, hi, a.free, Behind(a.free, ps), ps, ps + a.used[ps]);
  }
}
