/** When the driver reads back the bytes that the device wrote. The device writes a packet at
    the addresses it was given at the start; the driver reads from the addresses it keeps, which
    a partial read moves and recycling does not move back. */
module RxExact {
  import opened Ring
  import opened RxModel
  import opened RxSteps
  import opened RxPackets

  ghost predicate AtHome(b: Buf) {
    b.addr == b.home
  }

  /** Buffers of `bufsz` bytes apart from each other and inside memory. */
  ghost predicate Laid(bufs: seq<Buf>, bufsz: nat, size: nat) {
    && (forall s :: 0 <= s < |bufs| ==> bufs[s].home + bufsz <= size)
    && (forall s, t :: 0 <= s < |bufs| && 0 <= t < |bufs| && s != t ==>
          bufs[s].home + bufsz <= bufs[t].home || bufs[t].home + bufsz <= bufs[s].home)
  }

  function Store(mem: seq<Byte>, a: nat, s: seq<Byte>): (r: seq<Byte>)
    requires a + |s| <= |mem|
    ensures |r| == |mem|
  {
    mem[..a] + s + mem[a + |s|..]
  }

  lemma StorePeek(mem: seq<Byte>, a: nat, s: seq<Byte>, x: nat)
    requires a + |s| <= |mem|
    ensures Peek(Store(mem, a, s), x) == if a <= x < a + |s| then s[x - a] else Peek(mem, x)
  {
  }

  /** The device writes packet `p` into the buffers from slot `at` on. */
  function Dma(mem: seq<Byte>, bufs: seq<Buf>, at: nat, p: seq<Byte>, bufsz: nat): (r: seq<Byte>)
    requires at < |bufs| && bufsz > 0 && Laid(bufs, bufsz, |mem|)
    ensures |r| == |mem|
    decreases |p|
  {
    if |p| <= bufsz then Store(mem, bufs[at].home, p)
    else Dma(Store(mem, bufs[at].home, p[..bufsz]), bufs, RingIdxIncr(at, 1, |bufs|), p[bufsz..], bufsz)
  }

  /** Address `x` lies in none of the `fl` buffers from slot `at` on. */
  ghost predicate Clear(bufs: seq<Buf>, at: nat, fl: nat, bufsz: nat, x: nat) {
    && at < |bufs| && fl <= |bufs|
    && forall k :: 0 <= k < fl ==> var h := bufs[RingIdxIncr(at, k, |bufs|)].home; x < h || h + bufsz <= x
  }

  lemma ClearTail(bufs: seq<Buf>, at: nat, fl: nat, bufsz: nat, x: nat)
    requires fl > 0 && Clear(bufs, at, fl, bufsz, x)
    ensures Clear(bufs, RingIdxIncr(at, 1, |bufs|), fl - 1, bufsz, x)
    ensures x < bufs[at].home || bufs[at].home + bufsz <= x
  {
    var next := RingIdxIncr(at, 1, |bufs|);
    assert RingIdxIncr(at, 0, |bufs|) == at;
    forall k | 0 <= k < fl - 1 ensures RingIdxIncr(next, k, |bufs|) == RingIdxIncr(at, k + 1, |bufs|) { }
  }

  /** The device writes nowhere else. */
  lemma {:induction false} DmaElsewhere(mem: seq<Byte>, bufs: seq<Buf>, at: nat, p: seq<Byte>, bufsz: nat, x: nat)
    requires at < |bufs| && bufsz > 0 && Laid(bufs, bufsz, |mem|) && Clear(bufs, at, Need(|p|, bufsz), bufsz, x)
    ensures Peek(Dma(mem, bufs, at, p, bufsz), x) == Peek(mem, x)
    decreases |p|
  {
    hide Laid, Clear, Store, Peek;
    ClearTail(bufs, at, Need(|p|, bufsz), bufsz, x);
    HomeFits(bufs, at, bufsz, |mem|);
    if |p| <= bufsz {
      StorePeek(mem, bufs[at].home, p, x);
    } else {
      StorePeek(mem, bufs[at].home, p[..bufsz], x);
      DmaElsewhere(Store(mem, bufs[at].home, p[..bufsz]), bufs, RingIdxIncr(at, 1, |bufs|), p[bufsz..], bufsz, x);
    }
  }

  lemma HomeFits(bufs: seq<Buf>, s: nat, bufsz: nat, size: nat)
    requires s < |bufs| && Laid(bufs, bufsz, size)
    ensures bufs[s].home + bufsz <= size
  {
  }

  /** The buffers of other slots are clear. */
  lemma OthersClear(bufs: seq<Buf>, at: nat, fl: nat, bufsz: nat, size: nat, s: nat, x: nat)
    requires at < |bufs| && s < |bufs| && fl <= |bufs| && Laid(bufs, bufsz, size)
    requires forall k :: 0 <= k < fl ==> RingIdxIncr(at, k, |bufs|) != s
    requires bufs[s].home <= x < bufs[s].home + bufsz
    ensures Clear(bufs, at, fl, bufsz, x)
  {
  }

  /** Bytes inside the buffer of a slot that the packet does not use. */
  lemma DmaKeepsBytes(mem: seq<Byte>, bufs: seq<Buf>, at: nat, p: seq<Byte>, bufsz: nat, s: nat, addr: nat, len: nat)
    requires at < |bufs| && s < |bufs| && bufsz > 0 && Laid(bufs, bufsz, |mem|) && Need(|p|, bufsz) < |bufs|
    requires forall k :: 0 <= k < Need(|p|, bufsz) ==> RingIdxIncr(at, k, |bufs|) != s
    requires bufs[s].home <= addr && addr + len <= bufs[s].home + bufsz
    ensures Bytes(Dma(mem, bufs, at, p, bufsz), addr, len) == Bytes(mem, addr, len)
  {
    var now, was := Bytes(Dma(mem, bufs, at, p, bufsz), addr, len), Bytes(mem, addr, len);
    forall i | 0 <= i < len ensures now[i] == was[i] {
      OthersClear(bufs, at, Need(|p|, bufsz), bufsz, |mem|, s, addr + i);
      DmaElsewhere(mem, bufs, at, p, bufsz, addr + i);
    }
  }

  /** The buffers of a packet are where the device believes them to be. */
  ghost predicate UsedAtHome(bufs: seq<Buf>, at: nat, fl: nat) {
    at < |bufs| && fl <= |bufs| && forall k :: 0 <= k < fl ==> AtHome(bufs[RingIdxIncr(at, k, |bufs|)])
  }

  lemma UsedAtHomeTail(bufs: seq<Buf>, at: nat, fl: nat)
    requires fl > 0 && UsedAtHome(bufs, at, fl)
    ensures AtHome(bufs[at]) && UsedAtHome(bufs, RingIdxIncr(at, 1, |bufs|), fl - 1)
  {
    var next := RingIdxIncr(at, 1, |bufs|);
    assert RingIdxIncr(at, 0, |bufs|) == at;
    forall k | 0 <= k < fl - 1 ensures RingIdxIncr(next, k, |bufs|) == RingIdxIncr(at, k + 1, |bufs|) { }
  }

  lemma StoreBytes(mem: seq<Byte>, a: nat, s: seq<Byte>)
    requires a + |s| <= |mem|
    ensures Bytes(Store(mem, a, s), a, |s|) == s
  {
    forall i | 0 <= i < |s| ensures Peek(Store(mem, a, s), a + i) == s[i] { StorePeek(mem, a, s, a + i); }
  }

  /** A packet written and read at the same addresses comes back unchanged. */
  lemma {:induction false} ReadsBack(mem: seq<Byte>, bufs: seq<Buf>, at: nat, p: seq<Byte>, bufsz: nat)
    requires bufsz > 0 && Laid(bufs, bufsz, |mem|) && Need(|p|, bufsz) < |bufs|
    requires UsedAtHome(bufs, at, Need(|p|, bufsz))
    ensures PacketBytes(Dma(mem, bufs, at, p, bufsz), bufs, at, |p|, bufsz) == p
    decreases |p|
  {
    hide Laid, Store, Bytes;
    HomeFits(bufs, at, bufsz, |mem|);
    UsedAtHomeTail(bufs, at, Need(|p|, bufsz));
    if |p| <= bufsz {
      StoreBytes(mem, bufs[at].home, p);
    } else {
      var next, mid, rest := RingIdxIncr(at, 1, |bufs|), Store(mem, bufs[at].home, p[..bufsz]), p[bufsz..];
      StoreBytes(mem, bufs[at].home, p[..bufsz]);
      ReadsBack(mid, bufs, next, rest, bufsz);
      forall k | 0 <= k < Need(|rest|, bufsz) ensures RingIdxIncr(next, k, |bufs|) != at { }
      DmaKeepsBytes(mid, bufs, next, rest, bufsz, at, bufs[at].home, bufsz);
    }
  }

  // ----- and otherwise it need not -----

  /** Writing one value everywhere leaves any address with that value or its old one. */
  lemma {:induction false} DmaOfOne(mem: seq<Byte>, bufs: seq<Buf>, at: nat, p: seq<Byte>, bufsz: nat, c: Byte, x: nat)
    requires at < |bufs| && bufsz > 0 && Laid(bufs, bufsz, |mem|) && forall i :: 0 <= i < |p| ==> p[i] == c
    ensures Peek(Dma(mem, bufs, at, p, bufsz), x) == c || Peek(Dma(mem, bufs, at, p, bufsz), x) == Peek(mem, x)
    decreases |p|
  {
    hide Laid, Store, Peek;
    HomeFits(bufs, at, bufsz, |mem|);
    if |p| <= bufsz {
      StorePeek(mem, bufs[at].home, p, x);
    } else {
      StorePeek(mem, bufs[at].home, p[..bufsz], x);
      DmaOfOne(Store(mem, bufs[at].home, p[..bufsz]), bufs, RingIdxIncr(at, 1, |bufs|), p[bufsz..], bufsz, c, x);
    }
  }

  lemma FirstByte(mem: seq<Byte>, bufs: seq<Buf>, at: nat, len: nat, bufsz: nat)
    requires at < |bufs| && bufsz > 0 && len > 0
    ensures PacketBytes(mem, bufs, at, len, bufsz)[0] == Peek(mem, bufs[at].addr)
  {
  }

  /** A first byte unlike all others is not found at an address other than its own. */
  lemma OddFirstByte(mem: seq<Byte>, bufs: seq<Buf>, at: nat, p: seq<Byte>, bufsz: nat, c: Byte)
    requires at < |bufs| && bufsz > 0 && Laid(bufs, bufsz, |mem|) && !AtHome(bufs[at])
    requires p != [] && p[0] != c && p[0] != Peek(mem, bufs[at].addr) && forall i :: 0 < i < |p| ==> p[i] == c
    ensures PacketBytes(Dma(mem, bufs, at, p, bufsz), bufs, at, |p|, bufsz) != p
  {
    hide Laid, Store, Peek, PacketBytes;
    HomeFits(bufs, at, bufsz, |mem|);
    var x, final := bufs[at].addr, Dma(mem, bufs, at, p, bufsz);
    FirstByte(final, bufs, at, |p|, bufsz);
    if |p| <= bufsz {
      StorePeek(mem, bufs[at].home, p, x);
    } else {
      StorePeek(mem, bufs[at].home, p[..bufsz], x);
      DmaOfOne(Store(mem, bufs[at].home, p[..bufsz]), bufs, RingIdxIncr(at, 1, |bufs|), p[bufsz..], bufsz, c, x);
    }
  }

  /** If buffer `k` of a packet has drifted, some packet of that length is read back wrongly. */
  lemma {:induction false} Misread(mem: seq<Byte>, bufs: seq<Buf>, at: nat, len: nat, bufsz: nat, k: nat)
      returns (p: seq<Byte>)
    requires at < |bufs| && bufsz > 0 && Laid(bufs, bufsz, |mem|) && 0 < len && k < Need(len, bufsz) < |bufs|
    requires !AtHome(bufs[RingIdxIncr(at, k, |bufs|)])
    ensures |p| == len && PacketBytes(Dma(mem, bufs, at, p, bufsz), bufs, at, len, bufsz) != p
    decreases len
  {
    hide Laid, Store, Peek;
    HomeFits(bufs, at, bufsz, |mem|);
    assert RingIdxIncr(at, 0, |bufs|) == at;
    if k == 0 {
      var odd: Byte := if Peek(mem, bufs[at].addr) == 0 then 1 else 0;
      p := [odd] + seq(len - 1, i => 1 - odd);
      OddFirstByte(mem, bufs, at, p, bufsz, 1 - odd);
    } else {
      var next, chunk := RingIdxIncr(at, 1, |bufs|), seq(bufsz, i => 0 as Byte);
      assert RingIdxIncr(next, k - 1, |bufs|) == RingIdxIncr(at, k, |bufs|);
      var rest := Misread(Store(mem, bufs[at].home, chunk), bufs, next, len - bufsz, bufsz, k - 1);
      p := chunk + rest;
      assert p[..bufsz] == chunk && p[bufsz..] == rest;
      var final := Dma(mem, bufs, at, p, bufsz);
      assert PacketBytes(final, bufs, at, len, bufsz)[bufsz..] == PacketBytes(final, bufs, next, len - bufsz, bufsz);
    }
  }

  /** Every packet of a length is read back as written exactly when its buffers are at home. */
  lemma ReadsBackIff(mem: seq<Byte>, bufs: seq<Buf>, at: nat, len: nat, bufsz: nat)
    requires at < |bufs| && bufsz > 0 && Laid(bufs, bufsz, |mem|) && Need(len, bufsz) < |bufs|
    ensures (forall p: seq<Byte> :: |p| == len ==> PacketBytes(Dma(mem, bufs, at, p, bufsz), bufs, at, len, bufsz) == p)
            <==> len == 0 || UsedAtHome(bufs, at, Need(len, bufsz))
  {
    hide Laid, Dma, PacketBytes;
    if len > 0 && !UsedAtHome(bufs, at, Need(len, bufsz)) {
      var k :| 0 <= k < Need(len, bufsz) && !AtHome(bufs[RingIdxIncr(at, k, |bufs|)]);
      var p := Misread(mem, bufs, at, len, bufsz, k);
    } else {
      forall p: seq<Byte> | |p| == len ensures PacketBytes(Dma(mem, bufs, at, p, bufsz), bufs, at, len, bufsz) == p {
        if len == 0 {
          assert p == PacketBytes(Dma(mem, bufs, at, p, bufsz), bufs, at, len, bufsz);
        } else {
          ReadsBack(mem, bufs, at, p, bufsz);
        }
      }
    }
  }
}
