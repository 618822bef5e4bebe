/** The character device splits a user buffer at page boundaries (`map_user_buf_to_sgl` in
    cdev.c). An entry's address stands for page and offset together. */
module PageSplit {
  import opened ScatterGather
  import TxModel

  const PAGE_SIZE := 4096

  /** `get_user_pages_fast` needs this many pages; an empty buffer still takes one entry. */
  function PagesFor(buf: nat, len: nat): nat {
    if len == 0 then 1 else (len + buf % PAGE_SIZE + PAGE_SIZE - 1) / PAGE_SIZE
  }

  /** The first `n` entries lie back to back from `buf` on. */
  ghost predicate InOrder(sgl: seq<Seg>, n: nat, buf: nat)
    requires n <= |sgl|
  {
    forall i :: 0 <= i < n ==> Follows(sgl, i, buf)
  }

  ghost predicate Follows(sgl: seq<Seg>, i: nat, buf: nat)
    requires i < |sgl|
  {
    sgl[i].addr == buf + Prefix(sgl, i)
  }

  /** An entry does not cross a page; it ends at a page boundary or at the end of the buffer. */
  predicate InPage(s: Seg, end: nat) {
    && s.addr % PAGE_SIZE + s.len <= PAGE_SIZE
    && ((s.addr + s.len) % PAGE_SIZE == 0 || s.addr + s.len == end)
  }

  ghost predicate InPages(sgl: seq<Seg>, n: nat, buf: nat, len: nat)
    requires n <= |sgl|
  {
    && InOrder(sgl, n, buf)
    && (forall i :: 0 <= i < n ==> InPage(sgl[i], buf + len) && (len > 0 ==> sgl[i].len > 0))
  }

  lemma {:induction false} PrefixFrame(a: seq<Seg>, b: seq<Seg>, n: nat)
    requires n <= |a| && n <= |b| && a[..n] == b[..n]
    ensures Prefix(a, n) == Prefix(b, n)
  {
    if n > 0 {
      assert a[..n][..n - 1] == a[..n - 1] && b[..n][..n - 1] == b[..n - 1];
      PrefixFrame(a, b, n - 1);
      assert a[n - 1] == a[..n][n - 1];
    }
  }

  /** What is left, and the page offset at the cursor, after `i` entries. */
  lemma PagesLeft(buf: nat, left: nat, n: nat)
    requires left > 0 && n == (left + buf % PAGE_SIZE + PAGE_SIZE - 1) / PAGE_SIZE
    ensures n >= 1
    ensures left <= PAGE_SIZE - buf % PAGE_SIZE ==> n == 1
    ensures left > PAGE_SIZE - buf % PAGE_SIZE ==>
              var rest := left - (PAGE_SIZE - buf % PAGE_SIZE);
              var next := buf + (PAGE_SIZE - buf % PAGE_SIZE);
              next % PAGE_SIZE == 0 && n - 1 == (rest + next % PAGE_SIZE + PAGE_SIZE - 1) / PAGE_SIZE
  {
  }

  /** The next entry keeps what holds of the entries before it. */
  lemma NextEntry(sgl: seq<Seg>, i: nat, buf0: nat, len0: nat, buf: nat, len: nat, nbytes: nat)
    requires i < |sgl| && InPages(sgl, i, buf0, len0)
    requires Prefix(sgl, i) + len == len0 && buf == buf0 + Prefix(sgl, i) && nbytes <= len
    requires InPage(Seg(buf, nbytes), buf + len) && (len0 > 0 ==> nbytes > 0)
    ensures var after := sgl[i := Seg(buf, nbytes)];
            && InPages(after, i + 1, buf0, len0)
            && Prefix(after, i + 1) + (len - nbytes) == len0 && buf + nbytes == buf0 + Prefix(after, i + 1)
  {
    hide InPage;
    var after := sgl[i := Seg(buf, nbytes)];
    forall k | 0 <= k <= i ensures Prefix(after, k) == Prefix(sgl, k) {
      assert after[..k] == sgl[..k];
      PrefixFrame(after, sgl, k);
    }
    forall k | 0 <= k <= i ensures Follows(after, k, buf0) {
      if k < i { assert Follows(sgl, k, buf0); }
    }
  }

  /** One step of the split, whatever is left: how much it takes and how many entries remain. */
  lemma StepInPage(buf: nat, len: nat, n: nat)
    requires n > 0 && (if len > 0 then n == PagesFor(buf, len) else n == 1)
    ensures var offset := buf % PAGE_SIZE;
            var nbytes := if PAGE_SIZE - offset < len then PAGE_SIZE - offset else len;
            && nbytes <= len && (len > 0 ==> nbytes > 0) && InPage(Seg(buf, nbytes), buf + len)
            && (if len - nbytes > 0 then n - 1 == PagesFor(buf + nbytes, len - nbytes) else n == 1)
  {
    if len > 0 { PagesLeft(buf, len, n); }
  }

  /** Read and write calls hand over less than 4 GB, so the 32-bit lengths do not wrap. */
  method MapUserBuf(buf0: nat, len0: nat) returns (sg: array<Seg>)
    requires len0 < 0x1_0000_0000
    ensures fresh(sg) && sg.Length == PagesFor(buf0, len0)
    ensures InPages(sg[..], sg.Length, buf0, len0) && Total(sg[..]) == len0
  {
    hide InPages, InPage, Prefix;
    var pagesNr := PagesFor(buf0, len0);
    sg := new Seg[pagesNr](_ => Seg(0, 0));
    var buf: nat, len: nat, i: nat := buf0, len0, 0;
    NoEntries(sg[..], buf0, len0);
    while i < pagesNr
      invariant 0 <= i <= pagesNr && len <= len0 && (i < pagesNr && len0 > 0 ==> len > 0)
      invariant Prefix(sg[..], i) + len == len0 && buf == buf0 + Prefix(sg[..], i)
      invariant InPages(sg[..], i, buf0, len0)
      invariant i < pagesNr ==> if len > 0 then pagesNr - i == PagesFor(buf, len) else pagesNr - i == 1
      invariant i == pagesNr ==> len == 0
    {
      var offset := buf % PAGE_SIZE;
      var nbytes := if PAGE_SIZE - offset < len then PAGE_SIZE - offset else len;
      StepInPage(buf, len, pagesNr - i);
      NextEntry(sg[..], i, buf0, len0, buf, len, nbytes);
      ghost var after := sg[..][i := Seg(buf, nbytes)];
      sg[i] := Seg(buf, nbytes);
      assert sg[..] == after;
      buf := buf + nbytes;
      len := len - nbytes;
      i := i + 1;
    }
  }

  lemma NoEntries(sgl: seq<Seg>, buf: nat, len: nat)
    ensures InPages(sgl, 0, buf, len) && Prefix(sgl, 0) == 0
  {
  }

  lemma {:induction false} PrefixInOrder(sgl: seq<Seg>, buf: nat, n: nat, k: nat)
    requires n <= |sgl| && InOrder(sgl, |sgl|, buf) && k < Prefix(sgl, n)
    ensures HostFrom(sgl, n, k) == buf + k
  {
    assert Follows(sgl, n - 1, buf);
    if k < Prefix(sgl, n - 1) { PrefixInOrder(sgl, buf, n - 1, k); }
  }

  /** The list is what the transmit engine demands of a request, and byte `k` of the request is
      byte `k` of the user's buffer. */
  lemma SplitIsWellFormed(sgl: seq<Seg>, buf: nat, len: nat, id: nat, pos: nat)
    requires InPages(sgl, |sgl|, buf, len) && Total(sgl) == len && |sgl| == PagesFor(buf, len)
    ensures TxModel.WellFormed(TxModel.Request(id, sgl, len, pos))
    ensures forall k :: 0 <= k < len ==> HostAt(sgl, k) == buf + k
  {
    forall k | 0 <= k < len ensures HostAt(sgl, k) == buf + k {
      PrefixInOrder(sgl, buf, |sgl|, k);
    }
  }
}
