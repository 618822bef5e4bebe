/** Read requests of the streaming receive path: a destination cut into segments, and the
    place where the next bytes go. */
module RxRequest {
  import opened ScatterGather
  import opened RxModel

  /** Segment `j`, `off` bytes in, is byte `pos` of the destination. */
  ghost predicate Placed(sgl: seq<Seg>, j: nat, off: nat, pos: int) {
    && j <= |sgl| && (if j < |sgl| then off <= sgl[j].len else off == 0)
    && pos == Prefix(sgl, j) + off
  }

  lemma PlacedWithin(sgl: seq<Seg>, j: nat, off: nat, pos: int)
    requires Placed(sgl, j, off, pos)
    ensures j <= |sgl| && pos == Prefix(sgl, j) + off && 0 <= pos <= Total(sgl)
    ensures j < |sgl| ==> off <= sgl[j].len
    ensures j < |sgl| ==> pos + (sgl[j].len - off) <= Total(sgl)
    ensures j == |sgl| ==> pos == Total(sgl)
  {
    hide Prefix;
    PrefixMonotone(sgl, j, |sgl|);
    if j < |sgl| {
      PrefixStep(sgl, j);
      PrefixMonotone(sgl, j + 1, |sgl|);
    }
  }

  lemma PrefixStep(sgl: seq<Seg>, j: nat)
    requires j < |sgl|
    ensures Prefix(sgl, j + 1) == Prefix(sgl, j) + sgl[j].len
  {
  }

  /** `struct qdma_request` with its control block: the segments' pages laid end to end, and
      `sg_idx`, `sg_offset`, `left`. */
  class ReadReq {
    const sgl: seq<Seg>
    const dst: array<Byte>
    var sgIdx: nat
    var sgOffset: nat
    var left: nat

    ghost predicate Valid()
      reads this
    {
      dst.Length == Total(sgl) && left <= dst.Length && Placed(sgl, sgIdx, sgOffset, dst.Length - left)
    }

    /** The bytes delivered so far. */
    ghost function Got(): seq<Byte>
      reads this, dst
      requires Valid()
    {
      dst[..dst.Length - left]
    }

    constructor (sgl: seq<Seg>)
      ensures Valid() && this.sgl == sgl && left == Total(sgl) && fresh(dst) && Got() == []
    {
      this.sgl := sgl;
      dst := new Byte[Total(sgl)];
      sgIdx, sgOffset, left := 0, 0, Total(sgl);
      new;
    }

    /** `memcpy` of `len` bytes into the destination. */
    method Copy(mem: seq<Byte>, faddr: nat, toff: nat, len: nat)
      requires toff + len <= dst.Length
      modifies dst
      ensures Overlaid(old(dst[..]), dst[..], toff, Bytes(mem, faddr, len))
    {
      forall o | 0 <= o < len { dst[toff + o] := Peek(mem, faddr + o); }
    }

    /** One more stretch behind the `foff` bytes copied so far. */
    method CopyOn(mem: seq<Byte>, addr: nat, j: nat, tsgoff: nat, copy: nat, foff: nat,
                  ghost pos: nat, ghost was: seq<Byte>)
      requires j < |sgl| && Placed(sgl, j, tsgoff, pos + foff) && pos + foff + copy <= dst.Length
      requires Overlaid(was, dst[..], pos, Bytes(mem, addr, foff))
      modifies dst
      ensures Overlaid(was, dst[..], pos, Bytes(mem, addr, foff + copy))
    {
      hide Overlaid, Bytes, Prefix;
      ghost var before := dst[..];
      Copy(mem, addr + foff, Prefix(sgl, j) + tsgoff, copy);
      SameLength(was, before, pos, Bytes(mem, addr, foff));
      Spliced(mem, addr, was, before, dst[..], pos, foff, copy);
    }

    /** The inner loop of `descq_st_c2h_read`: spread one buffer over the segments from `j` on,
        until it is empty or the destination is full. */
    method Fill(mem: seq<Byte>, addr: nat, len: nat, from: nat, fromOff: nat, ghost pos: nat)
        returns (foff: nat, j: nat, tsgoff: nat)
      requires dst.Length == Total(sgl) && Placed(sgl, from, fromOff, pos)
      modifies dst
      ensures foff <= len && Placed(sgl, j, tsgoff, pos + foff)
      ensures foff == len || j == |sgl|
      ensures Overlaid(old(dst[..]), dst[..], pos, Bytes(mem, addr, foff))
    {
      hide Overlaid, Bytes, Placed, Prefix, Total;
      foff, j, tsgoff := 0, from, fromOff;
      PlacedWithin(sgl, from, fromOff, pos);
      Untouched(mem, addr, dst[..], pos);
      while foff < len && j < |sgl|
        invariant foff <= len && Placed(sgl, j, tsgoff, pos + foff) && pos + foff <= dst.Length && j <= |sgl|
        invariant Overlaid(old(dst[..]), dst[..], pos, Bytes(mem, addr, foff))
        decreases |sgl| - j, len - foff
      {
        PlacedWithin(sgl, j, tsgoff, pos + foff);
        var copy := if len - foff < sgl[j].len - tsgoff then len - foff else sgl[j].len - tsgoff;
        CopyOn(mem, addr, j, tsgoff, copy, foff, pos, old(dst[..]));
        PlacedStep(sgl, j, tsgoff, pos + foff, copy);
        foff, tsgoff := foff + copy, tsgoff + copy;
        if tsgoff == sgl[j].len {
          j, tsgoff := j + 1, 0;
        }
      }
      PlacedWithin(sgl, j, tsgoff, pos + foff);
    }
  }

  /** `now` is `was` with `s` written over it at `pos`. */
  ghost predicate Overlaid(was: seq<Byte>, now: seq<Byte>, pos: nat, s: seq<Byte>) {
    pos + |s| <= |was| && now == was[..pos] + s + was[pos + |s|..]
  }

  lemma SameLength(was: seq<Byte>, now: seq<Byte>, pos: nat, s: seq<Byte>)
    requires Overlaid(was, now, pos, s)
    ensures |was| == |now|
  {
  }

  lemma Untouched(mem: seq<Byte>, addr: nat, was: seq<Byte>, pos: nat)
    requires pos <= |was|
    ensures Overlaid(was, was, pos, Bytes(mem, addr, 0))
  {
  }

  lemma PlacedStep(sgl: seq<Seg>, j: nat, off: nat, pos: nat, copy: nat)
    requires j < |sgl| && Placed(sgl, j, off, pos) && off + copy <= sgl[j].len
    ensures Placed(sgl, j, off + copy, pos + copy)
    ensures off + copy == sgl[j].len ==> Placed(sgl, j + 1, 0, pos + copy)
  {
  }

  /** Bytes written over one stretch and then over the next. */
  lemma OverlaidTwice(was: seq<Byte>, mid: seq<Byte>, now: seq<Byte>, pos: nat, s: seq<Byte>, t: seq<Byte>)
    requires Overlaid(was, mid, pos, s) && Overlaid(mid, now, pos + |s|, t) && pos + |s| + |t| <= |was|
    ensures Overlaid(was, now, pos, s + t)
  {
    assert mid[..pos + |s|] == was[..pos] + s;
    assert mid[pos + |s| + |t|..] == was[pos + |s| + |t|..];
  }

  lemma Spliced(mem: seq<Byte>, addr: nat, was: seq<Byte>, mid: seq<Byte>, now: seq<Byte>, pos: nat, foff: nat,
                copy: nat)
    requires pos + foff + copy <= |was|
    requires Overlaid(was, mid, pos, Bytes(mem, addr, foff))
    requires Overlaid(mid, now, pos + foff, Bytes(mem, addr + foff, copy))
    ensures Overlaid(was, now, pos, Bytes(mem, addr, foff + copy))
  {
    assert Bytes(mem, addr, foff + copy) == Bytes(mem, addr, foff) + Bytes(mem, addr + foff, copy);
    OverlaidTwice(was, mid, now, pos, Bytes(mem, addr, foff), Bytes(mem, addr + foff, copy));
  }
}
