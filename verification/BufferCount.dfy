/** How many receive buffers a packet occupies (`get_fl_nr` in qdma_st_c2h.c). */
module BufferCount {
  import opened Bits

  /** `n` buffers of `bufsz` bytes, the last one holding `last` bytes, hold exactly `len` bytes. */
  ghost predicate Splits(len: nat, bufsz: nat, n: int, last: int) {
    n >= 1 && 0 < last <= bufsz && len == (n - 1) * bufsz + last
  }

  /** For a positive length there is one way to split. */
  lemma SplitUnique(len: nat, bufsz: nat, n: int, last: int, m: int, end: int)
    requires Splits(len, bufsz, n, last) && Splits(len, bufsz, m, end)
    ensures n == m && last == end
  {
    if n < m {
      MulMono(n, m - 1, bufsz);
      assert false;
    } else if m < n {
      MulMono(m, n - 1, bufsz);
      assert false;
    }
  }

  /** When the count is right: the power-of-two branch divides by the buffer size rounded up to
      a power of two, so it needs a power-of-two buffer size or a length below it. */
  ghost predicate CountsRight(len: nat, bufsz: nat) {
    IsPow2(bufsz) || !IsPow2(len) || len < bufsz
  }

  lemma {:induction false} Pow2Multiple(a: nat, k: nat) returns (m: nat)
    requires k <= a
    ensures m > 0 && Pow2(a) == m * Pow2(k)
  {
    if a == k {
      m := 1;
    } else {
      var h := Pow2Multiple(a - 1, k);
      m := 2 * h;
      assert 2 * (h * Pow2(k)) == m * Pow2(k);
    }
  }

  lemma {:induction false} Pow2Injective(a: nat, k: nat)
    ensures Pow2(a) < Pow2(k) <==> a < k
  {
    if a < k { Pow2Monotone(a, k); } else if k < a { Pow2Monotone(k, a); }
  }

  lemma MultipleSplits(m: nat, bufsz: nat, unit: nat)
    requires m > 0 && 0 < bufsz <= unit
    ensures Splits(m * unit, bufsz, m, bufsz) <==> bufsz == unit
  {
    assert (m - 1) * bufsz + bufsz == m * bufsz;
    if bufsz < unit { MulStrict(m, bufsz, unit); }
  }

  lemma MulStrict(m: nat, a: nat, b: nat)
    requires m > 0 && a < b
    ensures m * a < m * b
  {
  }

  /** Rounding up changes exactly the sizes that are no powers of two. */
  lemma RoundUpFixed(bufsz: nat)
    requires bufsz > 0
    ensures bufsz <= GetNextPowof2(bufsz) && (IsPow2(bufsz) <==> bufsz == GetNextPowof2(bufsz))
  {
    NextPowof2IsLeast(bufsz);
  }

  /** A power-of-two length, divided by the rounded-up buffer size `unit`. */
  lemma PowerBranch(len: nat, bufsz: nat, unit: nat)
    requires bufsz > 0 && IsPow2(len) && unit == GetNextPowof2(bufsz)
    ensures unit > 0
    ensures var rest := len % unit;
            Splits(len, bufsz, (len + (unit - 1)) / unit, if rest == 0 then bufsz else rest) <==>
              CountsRight(len, bufsz)
  {
    NextPowof2IsLeast(bufsz);
    RoundUpFixed(bufsz);
    hide Splits, GetNextPowof2, IsPow2;
    if len < unit {
      PowerBelow(len, bufsz);
      ModUnique(len, 0, len, unit);
      ModUnique(len + (unit - 1), 1, len - 1, unit);
      OneBuffer(len, bufsz);
    } else {
      var m := PowerAbove(len, bufsz);
      ModUnique(len, m, 0, unit);
      ModUnique(len + (unit - 1), m, unit - 1, unit);
      MultipleSplits(m, bufsz, unit);
    }
  }

  /** What `get_fl_nr` divides a length by. */
  ghost function Divisor(len: nat, bufsz: nat): (d: nat)
    requires bufsz > 0
    ensures d > 0
  {
    RoundUpFixed(bufsz);
    if IsPow2(len) then GetNextPowof2(bufsz) else bufsz
  }

  /** Its count and last length, right or not; an empty packet takes one buffer. */
  ghost function Count(len: nat, bufsz: nat): (n: nat)
    requires bufsz > 0
    ensures n > 0
  {
    if len == 0 then 1 else (len - 1) / Divisor(len, bufsz) + 1
  }

  ghost function LastOf(len: nat, bufsz: nat): nat
    requires bufsz > 0
  {
    if len == 0 then 0
    else
      var rest := len % Divisor(len, bufsz);
      if rest == 0 then bufsz else rest
  }

  lemma CeilingSplits(len: nat, d: nat)
    requires len > 0 && d > 0
    ensures Splits(len, d, (len - 1) / d + 1, if len % d == 0 then d else len % d)
    ensures (len + (d - 1)) / d == (len - 1) / d + 1
  {
    var q, r := (len - 1) / d, (len - 1) % d;
    ModUnique(len + (d - 1), q + 1, r, d);
    if r + 1 == d { ModUnique(len, q + 1, 0, d); } else { ModUnique(len, q, r + 1, d); }
  }

  /** They split the packet exactly where the count is right. Elsewhere whole buffers are counted,
      as many as the rounded-up size goes into the length, and the packet does not fit them. */
  lemma CountRightIff(len: nat, bufsz: nat)
    requires bufsz > 0 && len > 0
    ensures Splits(len, bufsz, Count(len, bufsz), LastOf(len, bufsz)) <==> CountsRight(len, bufsz)
    ensures !CountsRight(len, bufsz) ==>
              && LastOf(len, bufsz) == bufsz
              && Count(len, bufsz) * GetNextPowof2(bufsz) == len && Count(len, bufsz) * bufsz < len
  {
    CeilingSplits(len, Divisor(len, bufsz));
    if IsPow2(len) { PowerBranch(len, bufsz, GetNextPowof2(bufsz)); }
    if !CountsRight(len, bufsz) { WrongCount(len, bufsz); }
  }

  lemma WrongCount(len: nat, bufsz: nat)
    requires bufsz > 0 && len > 0 && !CountsRight(len, bufsz)
    ensures LastOf(len, bufsz) == bufsz
    ensures Count(len, bufsz) * GetNextPowof2(bufsz) == len && Count(len, bufsz) * bufsz < len
  {
    RoundUpFixed(bufsz);
    var unit := GetNextPowof2(bufsz);
    NextPowof2IsLeast(bufsz);
    hide GetNextPowof2, IsPow2;
    var m := PowerAbove(len, bufsz);
    ModUnique(len, m, 0, unit);
    assert (m - 1) * unit + (unit - 1) == m * unit - 1;
    ModUnique(len - 1, m - 1, unit - 1, unit);
    MulStrict(m, bufsz, unit);
  }

  lemma OneBuffer(len: nat, bufsz: nat)
    requires 0 < len <= bufsz
    ensures Splits(len, bufsz, 1, len)
  {
  }

  lemma PowerBelow(len: nat, bufsz: nat)
    requires bufsz > 0 && IsPow2(len) && len < GetNextPowof2(bufsz)
    ensures 0 < len < bufsz
  {
    NextPowof2IsLeast(bufsz);
  }

  lemma PowerAbove(len: nat, bufsz: nat) returns (m: nat)
    requires bufsz > 0 && IsPow2(len) && len >= GetNextPowof2(bufsz)
    ensures m > 0 && len == m * GetNextPowof2(bufsz) && len >= bufsz
  {
    NextPowof2IsLeast(bufsz);
    var a: nat :| len == Pow2(a);
    var k: nat :| GetNextPowof2(bufsz) == Pow2(k);
    Pow2Injective(a, k);
    m := Pow2Multiple(a, k);
  }

  /** The subtracting loop, for a length above the buffer size. */
  method CountDown(len: nat, bufsz: nat) returns (flNr: nat, lastLen: nat)
    requires 0 < bufsz < len
    ensures Splits(len, bufsz, flNr, lastLen)
  {
    flNr, lastLen := 0, len;
    while lastLen >= bufsz
      invariant len == flNr * bufsz + lastLen
    {
      assert (flNr + 1) * bufsz == flNr * bufsz + bufsz;
      flNr := flNr + 1;
      lastLen := lastLen - bufsz;
    }
    if lastLen > 0 {
      flNr := flNr + 1;
    } else {
      lastLen := bufsz;
      assert flNr * bufsz == (flNr - 1) * bufsz + bufsz;
    }
  }

  /** `get_fl_nr`: right for every packet exactly when `CountsRight` says so; an empty packet
      still takes one buffer. */
  method GetFlNr(len: nat, bufsz: nat, pgShift: nat, pgMask: nat) returns (flNr: nat, lastLen: nat)
    requires bufsz > 0 && Pow2(pgShift) == GetNextPowof2(bufsz) && pgMask == Pow2(pgShift) - 1
    ensures flNr == Count(len, bufsz) && (len > 0 ==> lastLen == LastOf(len, bufsz))
    ensures len > 0 ==> (Splits(len, bufsz, flNr, lastLen) <==> CountsRight(len, bufsz))
    ensures len > 0 && !CountsRight(len, bufsz) ==>
              lastLen == bufsz && flNr * GetNextPowof2(bufsz) == len && flNr * bufsz < len
  {
    hide Splits, GetNextPowof2, IsPow2, And, Pow2;
    flNr, lastLen := 1, len;
    if len > 0 { AndPredecessor(len); } else { AndZero(0xFFFF_FFFF); }
    if len > 0 {
      CountRightIff(len, bufsz);
      CeilingSplits(len, Divisor(len, bufsz));
    }
    if And(len, if len == 0 then 0xFFFF_FFFF else len - 1) == 0 {
      flNr := if len > 0 then (len + pgMask) / Pow2(pgShift) else 1;
      AndMask(len, pgShift);
      lastLen := And(len, pgMask);
      if lastLen == 0 {
        lastLen := bufsz;
      }
    } else {
      if len <= bufsz {
        flNr := 1;
        OneBuffer(len, bufsz);
        SplitUnique(len, bufsz, 1, len, Count(len, bufsz), LastOf(len, bufsz));
      } else {
        flNr, lastLen := CountDown(len, bufsz);
        SplitUnique(len, bufsz, flNr, lastLen, Count(len, bufsz), LastOf(len, bufsz));
      }
    }
  }

  lemma AndZero(y: nat)
    ensures And(0, y) == 0
  {
  }
}
