/** Rings in which the device marks fresh entries with a colour that flips on every lap: the
    streaming completion ring and the interrupt aggregation ring. The consumer knows an entry
    is new only because its colour is the one expected on this lap. */
module ColourRing {
  import opened Ring

  datatype Slot<T> = Slot(color: bool, data: T)

  /** Colour expected `k` places behind index `c`, if `col` is expected at `c`. */
  function ColourAt(c: nat, col: bool, k: nat, n: nat): bool {
    if c + k < n then col else !col
  }

  /** The consumer stands at `c` expecting `col`; the slots from there hold the unread entries
      in order, and every other slot still shows the colour of the lap before. */
  ghost predicate Consistent<T>(ring: seq<Slot<T>>, c: nat, col: bool, unread: seq<T>) {
    var n := |ring|;
    && c < n && |unread| <= n
    && (forall k :: 0 <= k < |unread| ==> ring[RingIdxIncr(c, k, n)] == Slot(ColourAt(c, col, k, n), unread[k]))
    && (forall k :: |unread| <= k < n ==> ring[RingIdxIncr(c, k, n)].color != ColourAt(c, col, k, n))
  }

  /** The colour test says exactly whether anything is unread. */
  lemma ColourTest<T>(ring: seq<Slot<T>>, c: nat, col: bool, unread: seq<T>)
    requires Consistent(ring, c, col, unread)
    ensures c < |ring| && (ring[c].color == col <==> unread != [])
    ensures unread != [] ==> ring[c].data == unread[0]
  {
    assert RingIdxIncr(c, 0, |ring|) == c;
  }

  /** Index and colour after one step, as `cmpt_next` and the aggregation loop take it. */
  function NextIdx(c: nat, n: nat): nat { if c + 1 == n then 0 else c + 1 }

  function NextColour(c: nat, col: bool, n: nat): bool { if c + 1 == n then !col else col }

  lemma ConsumeKeeps<T>(ring: seq<Slot<T>>, c: nat, col: bool, unread: seq<T>)
    requires Consistent(ring, c, col, unread) && unread != []
    ensures Consistent(ring, NextIdx(c, |ring|), NextColour(c, col, |ring|), unread[1..])
  {
    var n := |ring|;
    var c', col' := NextIdx(c, n), NextColour(c, col, n);
    forall k | 0 <= k < n - 1
      ensures RingIdxIncr(c', k, n) == RingIdxIncr(c, k + 1, n) &&
              ColourAt(c', col', k, n) == ColourAt(c, col, k + 1, n)
    {
    }
    assert RingIdxIncr(c', n - 1, n) == RingIdxIncr(c, 0, n) && ColourAt(c', col', n - 1, n) != ColourAt(c, col, 0, n);
  }

  /** The device's side: its own index and colour for the next entry. */
  ghost predicate ProducerAt(c: nat, col: bool, unread: nat, n: nat, p: nat, pcol: bool) {
    c < n && unread <= n && p == RingIdxIncr(c, unread, n) && pcol == ColourAt(c, col, unread, n)
  }

  /** The device writes an entry while at most a lap ahead, and moves on in the same way. */
  lemma ProduceKeeps<T>(ring: seq<Slot<T>>, c: nat, col: bool, unread: seq<T>, p: nat, pcol: bool, x: T)
    requires Consistent(ring, c, col, unread) && |unread| < |ring|
    requires ProducerAt(c, col, |unread|, |ring|, p, pcol)
    ensures Consistent(ring[p := Slot(pcol, x)], c, col, unread + [x])
    ensures ProducerAt(c, col, |unread| + 1, |ring|, NextIdx(p, |ring|), NextColour(p, pcol, |ring|))
  {
    var n := |ring|;
    forall k | 0 <= k < n && k != |unread| ensures RingIdxIncr(c, k, n) != p { }
  }

  lemma ProducerFollows(c: nat, col: bool, unread: nat, n: nat, p: nat, pcol: bool)
    requires ProducerAt(c, col, unread, n, p, pcol) && unread > 0
    ensures ProducerAt(NextIdx(c, n), NextColour(c, col, n), unread - 1, n, p, pcol)
  {
  }

  /** A zeroed ring, with colour one expected first. */
  lemma StartsConsistent<T>(ring: seq<Slot<T>>)
    requires ring != [] && forall k :: 0 <= k < |ring| ==> !ring[k].color
    ensures Consistent(ring, 0, true, []) && ProducerAt(0, true, 0, |ring|, 0, true)
  {
  }

  // ----- runs of one ring -----

  datatype Event<T> = Produced(entry: T) | Polled

  /** One ring with both sides, and what each has done so far. */
  datatype Duplex<T> = Duplex(
    ring: seq<Slot<T>>, c: nat, col: bool, p: nat, pcol: bool, written: seq<T>, read: seq<T>)

  /** The device writes only while it is at most one lap ahead; the consumer polls at will. */
  ghost predicate Enabled<T>(d: Duplex<T>, e: Event<T>) {
    e.Produced? ==> |d.written| < |d.read| + |d.ring|
  }

  function Do<T>(d: Duplex<T>, e: Event<T>): Duplex<T>
    requires d.c < |d.ring| && d.p < |d.ring|
  {
    var n := |d.ring|;
    match e
    case Produced(x) =>
      d.(ring := d.ring[d.p := Slot(d.pcol, x)], p := NextIdx(d.p, n), pcol := NextColour(d.p, d.pcol, n),
        written := d.written + [x])
    case Polled =>
      if d.ring[d.c].color == d.col
      then d.(c := NextIdx(d.c, n), col := NextColour(d.c, d.col, n), read := d.read + [d.ring[d.c].data])
      else d
  }

  ghost predicate Good<T>(d: Duplex<T>) {
    && d.read <= d.written
    && Consistent(d.ring, d.c, d.col, d.written[|d.read|..])
    && ProducerAt(d.c, d.col, |d.written| - |d.read|, |d.ring|, d.p, d.pcol)
  }

  ghost predicate Path<T>(d: Duplex<T>, es: seq<Event<T>>, e: Duplex<T>)
    decreases |es|
  {
    if es == [] then d == e
    else d.c < |d.ring| && d.p < |d.ring| && Enabled(d, es[0]) && Path(Do(d, es[0]), es[1..], e)
  }

  lemma DoKeepsGood<T>(d: Duplex<T>, e: Event<T>)
    requires Good(d) && Enabled(d, e)
    ensures d.c < |d.ring| && d.p < |d.ring| && Good(Do(d, e))
    ensures e.Polled? && d.read != d.written ==> Do(d, e).read == d.read + [d.written[|d.read|]]
    ensures e.Polled? && d.read == d.written ==> Do(d, e) == d
  {
    hide Consistent, ProducerAt;
    var n, unread := |d.ring|, d.written[|d.read|..];
    ProducerInRing(d.c, d.col, |unread|, n, d.p, d.pcol);
    ColourTest(d.ring, d.c, d.col, unread);
    match e
    case Produced(x) => ProducedKeepsGood(d, x);
    case Polled =>
      if unread != [] { PolledKeepsGood(d); }
  }

  lemma ProducedKeepsGood<T>(d: Duplex<T>, x: T)
    requires Good(d) && Enabled(d, Produced(x))
    ensures d.c < |d.ring| && d.p < |d.ring| && Good(Do(d, Produced(x)))
  {
    hide Consistent, ProducerAt;
    var unread := d.written[|d.read|..];
    ProducerInRing(d.c, d.col, |unread|, |d.ring|, d.p, d.pcol);
    ProduceKeeps(d.ring, d.c, d.col, unread, d.p, d.pcol, x);
    assert (d.written + [x])[|d.read|..] == unread + [x];
  }

  lemma PolledKeepsGood<T>(d: Duplex<T>)
    requires Good(d) && d.read != d.written
    ensures d.c < |d.ring| && d.p < |d.ring| && Good(Do(d, Polled))
    ensures Do(d, Polled).read == d.read + [d.written[|d.read|]]
  {
    hide Consistent, ProducerAt;
    var unread := d.written[|d.read|..];
    ProducerInRing(d.c, d.col, |unread|, |d.ring|, d.p, d.pcol);
    ColourTest(d.ring, d.c, d.col, unread);
    ConsumeKeeps(d.ring, d.c, d.col, unread);
    ProducerFollows(d.c, d.col, |unread|, |d.ring|, d.p, d.pcol);
    assert unread[1..] == d.written[|d.read| + 1..];
  }

  lemma ProducerInRing(c: nat, col: bool, unread: nat, n: nat, p: nat, pcol: bool)
    requires ProducerAt(c, col, unread, n, p, pcol)
    ensures p < n
  {
  }

  /** Over every run from a zeroed ring, what the consumer has read is a prefix of what the
      device has written: each entry once, in order, and never a stale one. */
  lemma {:induction false} RunsReadInOrder<T>(d: Duplex<T>, es: seq<Event<T>>, e: Duplex<T>)
    requires Good(d) && Path(d, es, e)
    ensures Good(e) && d.read <= e.read <= e.written && d.written <= e.written
    decreases |es|
  {
    if es != [] {
      DoKeepsGood(d, es[0]);
      RunsReadInOrder(Do(d, es[0]), es[1..], e);
    }
  }
}
