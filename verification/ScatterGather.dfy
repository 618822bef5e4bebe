/** Scatter-gather lists: `struct qdma_sw_sg` entries as (DMA address, length) pairs. */
module ScatterGather {

  datatype Seg = Seg(addr: nat, len: nat)

  datatype Result<T> = Ok(value: T) | Err(code: int)

  const EINVAL := 22
  const ENXIO := 6
  const ERANGE := 34

  /** Bytes described by the first `i` entries. */
  function Prefix(sgl: seq<Seg>, i: nat): nat
    requires i <= |sgl|
  {
    if i == 0 then 0 else Prefix(sgl, i - 1) + sgl[i - 1].len
  }

  function Total(sgl: seq<Seg>): nat {
    Prefix(sgl, |sgl|)
  }

  ghost predicate Positive(sgl: seq<Seg>) {
    forall i :: 0 <= i < |sgl| ==> sgl[i].len > 0
  }

  lemma {:induction false} PrefixMonotone(sgl: seq<Seg>, i: nat, j: nat)
    requires i <= j <= |sgl|
    ensures Prefix(sgl, i) <= Prefix(sgl, j)
    decreases j - i
  {
    if i < j { PrefixMonotone(sgl, i, j - 1); }
  }

  /** DMA address of byte `k` of the buffer that the list describes. */
  function HostAt(sgl: seq<Seg>, k: nat): nat
    requires k < Total(sgl)
    decreases |sgl|
  {
    HostFrom(sgl, |sgl|, k)
  }

  /** The same, looking only at the first `n` entries. */
  function HostFrom(sgl: seq<Seg>, n: nat, k: nat): nat
    requires n <= |sgl| && k < Prefix(sgl, n)
  {
    if k >= Prefix(sgl, n - 1) then sgl[n - 1].addr + (k - Prefix(sgl, n - 1))
    else HostFrom(sgl, n - 1, k)
  }

  lemma {:induction false} HostFromWithin(sgl: seq<Seg>, n: nat, i: nat, o: nat)
    requires i < n <= |sgl| && o < sgl[i].len
    ensures Prefix(sgl, i) + o < Prefix(sgl, n)
    ensures HostFrom(sgl, n, Prefix(sgl, i) + o) == sgl[i].addr + o
    decreases n
  {
    PrefixMonotone(sgl, i + 1, n);
    if i < n - 1 {
      HostFromWithin(sgl, n - 1, i, o);
    }
  }

  /** Byte `o` of entry `i` is byte `Prefix(i) + o` of the whole buffer. */
  lemma HostAtSegment(sgl: seq<Seg>, i: nat, o: nat)
    requires i < |sgl| && o < sgl[i].len
    ensures Prefix(sgl, i) + o < Total(sgl)
    ensures HostAt(sgl, Prefix(sgl, i) + o) == sgl[i].addr + o
  {
    HostFromWithin(sgl, |sgl|, i, o);
  }

  /** `qdma_sgl_find_offset`: where in the list a partly issued request resumes. */
  method FindOffset(sgl: seq<Seg>, count: nat, offset: nat) returns (r: Result<(nat, nat)>)
    ensures count == 0 ==> r == Ok((0, 0))
    ensures count > 0 && r.Ok? ==>
      var (i, o) := r.value;
      i < |sgl| && Prefix(sgl, i) + o == offset && (o < sgl[i].len || o == 0)
    ensures count > 0 && r.Err? ==> r == Err(-EINVAL) && Total(sgl) <= offset
    ensures count > 0 && Positive(sgl) ==> (r.Ok? <==> offset < Total(sgl))
  {
    if count == 0 {
      return Ok((0, 0));
    }
    var len, i := 0, 0;
    while i < |sgl|
      invariant 0 <= i <= |sgl|
      invariant len == Prefix(sgl, i)
      invariant i > 0 ==> len < offset
    {
      len := len + sgl[i].len;
      PrefixMonotone(sgl, i + 1, |sgl|);
      if len == offset {
        if i + 1 < |sgl| {
          PrefixMonotone(sgl, i + 2, |sgl|);
          return Ok((i + 1, 0));
        } else {
          return Err(-EINVAL);
        }
      } else if len > offset {
        return Ok((i, sgl[i].len - (len - offset)));
      }
      i := i + 1;
    }
    return Err(-EINVAL);
  }
}
