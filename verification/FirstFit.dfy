/** The linked free list of the first-fit allocator, with its sentinel node and side table. */
module FirstFit {
  import opened FirstFitModel

  /** `MemBuf` and `HBMBuf` as the large-block lists use them. */
  class FreeNode {
    var next: FreeNode?
    var start: nat
    var end: nat
    var length: nat

    constructor (next: FreeNode?, start: nat, end: nat, length: nat)
      ensures this.next == next && this.start == start && this.end == end && this.length == length
    {
      this.next, this.start, this.end, this.length := next, start, end, length;
    }
  }

  class FreeList {
    const head: FreeNode
    var used: map<nat, nat>
    ghost var free: seq<Block>
    ghost var spine: seq<FreeNode>

    /** Distinct nodes, each pointing to the one behind it. */
    static ghost predicate Chain(nodes: seq<FreeNode>)
      reads nodes
    {
      && nodes != [] && nodes[|nodes| - 1].next == null
      && (forall i, j :: 0 <= i < j < |nodes| ==> nodes[i] != nodes[j])
      && (forall i, j :: 0 <= i < j < |nodes| && j == i + 1 ==> nodes[i].next == nodes[j])
    }

    /** The nodes behind the sentinel hold the free blocks. */
    static ghost predicate Content(nodes: seq<FreeNode>, free: seq<Block>)
      reads nodes
    {
      && |nodes| == |free| + 1
      && forall i, j :: 0 <= i < |free| && j == i + 1 ==>
         Block(nodes[j].start, nodes[j].end, nodes[j].length) == free[i]
    }

    ghost predicate Linked()
      reads this, spine
    {
      Chain(spine) && Content(spine, free) && spine[0] == head
    }

    ghost function View(): Arena
      reads this
    {
      Arena(free, used)
    }

    /** One free block for the whole region. */
    constructor (lo: nat, hi: nat)
      requires lo <= hi
      ensures Linked() && View() == Arena([Block(lo, hi, hi - lo)], map[])
      ensures fresh(head) && forall n :: n in spine ==> fresh(n)
    {
      var first := new FreeNode(null, lo, hi, hi - lo);
      var sentinel := new FreeNode(first, lo, lo, 0);
      head := sentinel;
      used := map[];
      free := [Block(lo, hi, hi - lo)];
      spine := [sentinel, first];
    }

    /** `o5fl_alloc` and `hbm_getaddr`: the first block that is large enough. */
    method Alloc(size: nat) returns (r: Option<nat>)
      requires Linked() && !Wraps(free, size)
      modifies this, spine
      ensures Linked() && (View(), r) == FirstFitModel.Alloc(old(View()), size)
      ensures forall n :: n in spine ==> n in old(spine)
    {
      hide RoundMB, Fit, Wraps, FirstFitModel.Alloc;
      var p := head;
      ghost var i := 0;
      while p.next != null
        invariant 0 <= i <= |free| && p == spine[i] && (i < |free| ==> p.next == spine[i + 1])
        invariant forall k :: 0 <= k < i ==> free[k].length < size
        invariant unchanged(this) && forall n :: n in spine ==> unchanged(n)
        decreases |free| - i
      {
        var tmp := p;
        p := p.next;
        assert i + 1 < |free| ==> spine[i + 1].next == spine[i + 2];
        assert i < |free| && p == spine[i + 1] && free[i] == Block(p.start, p.end, p.length);
        if p.length == size {
          FitIs(free, size, i);
          r := TakeWhole(tmp, p, size, i);
          return;
        } else if p.length > size {
          FitIs(free, size, i);
          r := TakePart(p, size, i);
          return;
        }
        i := i + 1;
      }
      FitIs(free, size, i);
      NoFit(View(), size);
      return None;
    }

    lemma NoFit(a: Arena, size: nat)
      requires Fit(a.free, size) == |a.free|
      ensures !Wraps(a.free, size) && FirstFitModel.Alloc(a, size) == (a, None)
    {
    }

    method TakeWhole(tmp: FreeNode, p: FreeNode, size: nat, ghost i: nat) returns (r: Option<nat>)
      requires Linked() && !Wraps(free, size) && i == Fit(free, size) < |free| && p.length == size
      requires tmp == spine[i] && p == spine[i + 1] && free[i] == Block(p.start, p.end, p.length)
      modifies this, spine
      ensures Linked() && (View(), r) == FirstFitModel.Alloc(old(View()), size)
      ensures forall n :: n in spine ==> n in old(spine)
    {
      hide RoundMB, Fit, Chain;
      r := Some(p.start);
      used := used[p.start := size];
      Unlink(tmp, p, i);
    }

    method TakePart(p: FreeNode, size: nat, ghost i: nat) returns (r: Option<nat>)
      requires Linked() && !Wraps(free, size) && i == Fit(free, size) < |free| && p.length > size
      requires p == spine[i + 1] && free[i] == Block(p.start, p.end, p.length)
      modifies this, spine
      ensures Linked() && (View(), r) == FirstFitModel.Alloc(old(View()), size)
      ensures spine == old(spine)
    {
      hide RoundMB, Fit, Chain;
      var s := RoundMB(size);
      r := Some(p.start);
      used := used[p.start := s];
      Shrink(p, s, i);
    }

    lemma FitIs(free: seq<Block>, size: nat, i: nat)
      requires i <= |free| && forall k :: 0 <= k < i ==> free[k].length < size
      requires i < |free| ==> free[i].length >= size
      ensures Fit(free, size) == i
    {
    }

    /** `tmp->next = p->next; free(p)`. */
    method Unlink(tmp: FreeNode, p: FreeNode, ghost i: nat)
      requires Linked() && i < |free| && tmp == spine[i] && p == spine[i + 1]
      modifies tmp`next, `free, `spine
      ensures Linked() && free == old(free[..i] + free[i + 1..])
      ensures spine == old(spine[..i + 1] + spine[i + 2..])
    {
      tmp.next := p.next;
      free := free[..i] + free[i + 1..];
      spine := spine[..i + 1] + spine[i + 2..];
    }

    /** Taking `s` bytes off the start of a block. */
    method Shrink(p: FreeNode, s: nat, ghost i: nat)
      requires Linked() && i < |free| && p == spine[i + 1] && s <= p.length
      modifies p`start, p`length, `free
      ensures Linked() && spine == old(spine)
      ensures free == old(free[i := Block(free[i].start + s, free[i].end, free[i].length - s)])
    {
      p.start := p.start + s;
      p.length := p.length - s;
      free := free[i := Block(free[i].start + s, free[i].end, free[i].length - s)];
    }

    /** `o5fl_free` and `hbm_free`, for a live address that has a block behind it. */
    method Free(ps: nat)
      requires Linked() && ps in used && Behind(free, ps) < |free|
      modifies this, spine
      ensures Linked() && View() == FirstFitModel.Free(old(View()), ps)
      ensures forall n :: n in spine ==> n in old(spine) || fresh(n)
    {
      hide Insert, Behind, Drop;
      var s := used[ps];
      used := Drop(used, ps);
      var pe := ps + s;
      var p1 := head;
      assert spine[0].next == spine[1];
      var p2: FreeNode := p1.next;
      ghost var j := 0;
      while ps > p2.start
        invariant 0 <= j <= Behind(free, ps) && p1 == spine[j] && p2 == spine[j + 1]
        invariant Linked() && free == old(free) && spine == old(spine)
        decreases |free| - j
      {
        assert free[j] == Block(spine[j + 1].start, spine[j + 1].end, spine[j + 1].length);
        assert spine[j + 1].next == spine[j + 2];
        p1 := p1.next;
        p2 := p1.next;
        j := j + 1;
      }
      assert free[j] == Block(spine[j + 1].start, spine[j + 1].end, spine[j + 1].length);
      assert j == Behind(free, ps);
      PutBack(p1, p2, ps, pe, s, j);
    }

    /** The four ways of linking [ps, pe) in between two neighbours. */
    method PutBack(p1: FreeNode, p2: FreeNode, ps: nat, pe: nat, s: nat, ghost j: nat)
      requires Linked() && j < |free| && p1 == spine[j] && p2 == spine[j + 1]
      modifies this, spine
      ensures Linked() && free == Insert(old(free), j, ps, pe, s) && used == old(used)
      ensures forall n :: n in spine ==> n in old(spine) || fresh(n)
    {
      assert Block(p2.start, p2.end, p2.length) == free[j];
      assert j > 0 ==> Block(p1.start, p1.end, p1.length) == free[j - 1];
      if p1 == head {
        if pe == p2.start {
          GrowDown(p2, ps, s, j);
        } else {
          LinkNew(p1, p2, ps, pe, s, j);
        }
      } else {
        if ps == p1.end && pe == p2.start {
          Merge(p1, p2, s, j);
        } else if ps == p1.end {
          GrowUp(p1, pe, s, j);
        } else if pe == p2.start {
          GrowDown(p2, ps, s, j);
        } else {
          LinkNew(p1, p2, ps, pe, s, j);
        }
      }
    }

    method GrowDown(p2: FreeNode, ps: nat, s: nat, ghost j: nat)
      requires Linked() && j < |free| && p2 == spine[j + 1]
      modifies p2`start, p2`length, `free
      ensures Linked() && free == old(free[j := free[j].(start := ps, length := free[j].length + s)])
    {
      p2.start := ps;
      p2.length := p2.length + s;
      free := free[j := free[j].(start := ps, length := free[j].length + s)];
    }

    method GrowUp(p1: FreeNode, pe: nat, s: nat, ghost j: nat)
      requires Linked() && 0 < j < |free| && p1 == spine[j]
      modifies p1`end, p1`length, `free
      ensures Linked() && free == old(free[j - 1 := free[j - 1].(end := pe, length := free[j - 1].length + s)])
    {
      p1.end := pe;
      p1.length := p1.length + s;
      free := free[j - 1 := free[j - 1].(end := pe, length := free[j - 1].length + s)];
    }

    /** A new node between two neighbours of a chain. */
    static lemma ChainInsert(nodes: seq<FreeNode>, j: nat, node: FreeNode)
      requires j + 1 < |nodes| && node !in nodes && nodes[j].next == node && node.next == nodes[j + 1]
      requires nodes[|nodes| - 1].next == null && forall a, b :: 0 <= a < b < |nodes| ==> nodes[a] != nodes[b]
      requires forall a, b :: 0 <= a < b < |nodes| && b == a + 1 && a != j ==> nodes[a].next == nodes[b]
      ensures Chain(nodes[..j + 1] + [node] + nodes[j + 1..])
    {
      var now := nodes[..j + 1] + [node] + nodes[j + 1..];
      forall a, b | 0 <= a < b < |now| && b == a + 1 ensures now[a].next == now[b] {
        if a > j + 1 { assert now[a] == nodes[a - 1] && now[b] == nodes[a]; }
      }
    }

    static lemma ContentInsert(nodes: seq<FreeNode>, free: seq<Block>, j: nat, node: FreeNode)
      requires Content(nodes, free) && j < |free|
      ensures Content(nodes[..j + 1] + [node] + nodes[j + 1..],
                      free[..j] + [Block(node.start, node.end, node.length)] + free[j..])
    {
      var now := nodes[..j + 1] + [node] + nodes[j + 1..];
      var blocks := free[..j] + [Block(node.start, node.end, node.length)] + free[j..];
      forall a, b | 0 <= a < |blocks| && b == a + 1
        ensures Block(now[b].start, now[b].end, now[b].length) == blocks[a]
      {
        if a > j { assert now[b] == nodes[a] && blocks[a] == free[a - 1]; }
      }
    }

    method LinkNew(p1: FreeNode, p2: FreeNode, ps: nat, pe: nat, s: nat, ghost j: nat)
      requires Linked() && j < |free| && p1 == spine[j] && p2 == spine[j + 1]
      modifies p1`next, `free, `spine
      ensures Linked() && free == old(free[..j] + [Block(ps, pe, s)] + free[j..])
      ensures forall n :: n in spine ==> n in old(spine) || fresh(n)
    {
      ghost var nodes, blocks := spine, free;
      var newfl := new FreeNode(p2, ps, pe, s);
      p1.next := newfl;
      ContentInsert(nodes, blocks, j, newfl);
      ChainInsert(nodes, j, newfl);
      hide Chain, Content;
      free := blocks[..j] + [Block(ps, pe, s)] + blocks[j..];
      spine := nodes[..j + 1] + [newfl] + nodes[j + 1..];
    }

    method Merge(p1: FreeNode, p2: FreeNode, s: nat, ghost j: nat)
      requires Linked() && 0 < j < |free| && p1 == spine[j] && p2 == spine[j + 1]
      modifies p1`end, p1`length, p1`next, `free, `spine
      ensures Linked()
      ensures free == old(free[..j - 1] +
                [free[j - 1].(end := free[j].end, length := free[j - 1].length + s + free[j].length)] + free[j + 1..])
      ensures forall n :: n in spine ==> n in old(spine)
    {
      GrowUp(p1, p2.end, s + p2.length, j);
      Unlink(p1, p2, j);
    }
  }
}
