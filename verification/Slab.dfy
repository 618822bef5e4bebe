/** One of the four fixed-size lists of `MemFL`: an array of blocks threaded into a circular
    doubly linked list of the unallocated ones, with the list head as sentinel. */
module Slab {
  import opened Bits
  import opened FirstFitModel

  /** Address of block `i`. */
  function AddrOf(base: nat, bsize: nat, i: nat): nat {
    base + i * bsize
  }

  /** The index computed from an address by the release functions. */
  function IndexOf(base: nat, bsize: nat, ps: nat): nat
    requires bsize > 0 && base <= ps
  {
    (ps - base) / bsize
  }

  lemma IndexOfAddr(base: nat, bsize: nat, i: nat)
    requires bsize > 0
    ensures base <= AddrOf(base, bsize, i) && IndexOf(base, bsize, AddrOf(base, bsize, i)) == i
  {
    assert i * bsize >= 0;
    ModUnique(i * bsize, i, 0, bsize);
  }

  lemma StrideApart(i: nat, j: nat, b: nat)
    requires i * b < j * b
    ensures i * b + b <= j * b
  {
    if j <= i {
      MulMono(j, i, b);
      assert false;
    }
    MulMono(i + 1, j, b);
    assert (i + 1) * b == i * b + b;
  }

  class SlabList {
    const base: nat
    const bsize: nat
    const count: nat
    /** Links of block `i`; position `count` is the sentinel. */
    const next: array<nat>
    const prev: array<nat>
    /** The sentinel and the free blocks behind it, in list order. */
    ghost var ring: seq<nat>

    ghost predicate Valid()
      reads this, next, prev
    {
      && bsize > 0 && next != prev && next.Length == prev.Length == count + 1
      && ring != [] && ring[0] == count
      && (forall i :: 0 < i < |ring| ==> ring[i] < count)
      && (forall i, j :: 0 <= i < j < |ring| ==> ring[i] != ring[j])
      && (forall i, j :: 0 <= i < j < |ring| && j == i + 1 ==> next[ring[i]] == ring[j] && prev[ring[j]] == ring[i])
      && next[ring[|ring| - 1]] == count && prev[count] == ring[|ring| - 1]
    }

    /** The free blocks, first to be handed out first. */
    ghost function Queue(): seq<nat>
      reads this
    {
      if ring == [] then [] else ring[1..]
    }

    /** The part of `init_freelist` for one size: every block free, in address order. */
    constructor (base: nat, bsize: nat, count: nat)
      requires bsize > 0
      ensures Valid() && this.base == base && this.bsize == bsize && this.count == count
      ensures fresh(next) && fresh(prev) && Queue() == seq(count, i => i)
    {
      this.base, this.bsize, this.count := base, bsize, count;
      next := new nat[count + 1](i requires 0 <= i => if i == count then 0 else i + 1);
      prev := new nat[count + 1](i requires 0 <= i => if i == 0 then count else i - 1);
      ring := [count] + seq(count, i => i);
      new;
      if count == 0 {
        assert ring == [0];
      }
    }

    /** `o1fl_alloc` to `o4fl_alloc`: unlink the block behind the sentinel. */
    method Alloc() returns (r: Option<nat>)
      requires Valid()
      modifies this, next, prev
      ensures Valid()
      ensures r.None? <==> old(Queue()) == []
      ensures r.None? ==> Queue() == old(Queue())
      ensures r.Some? ==> r == Some(AddrOf(base, bsize, old(Queue())[0])) && Queue() == old(Queue())[1..]
    {
      ghost var n := |ring|;
      assert n > 1 ==> next[ring[0]] == ring[1];
      assert n > 2 ==> next[ring[1]] == ring[2];
      var p := next[count];
      if p == count {
        return None;
      }
      var q := next[p];
      next[count] := q;
      prev[q] := count;
      ring := [count] + ring[2..];
      r := Some(AddrOf(base, bsize, p));
    }

    /** `o1fl_free` to `o4fl_free`: append the block found from the address. */
    method Free(ps: nat)
      requires Valid() && base <= ps && IndexOf(base, bsize, ps) < count
      requires IndexOf(base, bsize, ps) !in Queue()
      modifies this, next, prev
      ensures Valid() && Queue() == old(Queue()) + [IndexOf(base, bsize, ps)]
    {
      var idx := IndexOf(base, bsize, ps);
      var p := prev[count];
      next[p] := idx;
      next[idx] := count;
      prev[count] := idx;
      prev[idx] := p;
      ring := ring + [idx];
    }
  }
}
