/** The interrupt aggregation loop (`data_intr_aggregate`). Every interrupt vector has its own
    ring and its own entry in the coalescing list, but the loop flips the colour of the first
    entry of the list whichever ring wraps. */
module IntrAggregation {
  import opened Ring
  import opened ColourRing

  // ----- the list as values -----

  /** All rings with the consumer's index and colour, the device's index and colour, and the
      entries written and not served. */
  datatype Coal = Coal(
    rings: seq<seq<Slot<nat>>>, idx: seq<nat>, color: seq<bool>, p: seq<nat>, pcol: seq<bool>, unread: seq<seq<nat>>)

  ghost predicate Shaped(s: Coal) {
    && 0 < |s.rings| == |s.idx| == |s.color| == |s.p| == |s.pcol| == |s.unread|
    && (forall v :: 0 <= v < |s.rings| ==> s.idx[v] < |s.rings[v]| && s.p[v] < |s.rings[v]|)
  }

  /** Vector `v` tells read from unread. */
  ghost predicate RightAt(s: Coal, v: nat)
    requires Shaped(s) && v < |s.rings|
  {
    && Consistent(s.rings[v], s.idx[v], s.color[v], s.unread[v])
    && ProducerAt(s.idx[v], s.color[v], |s.unread[v]|, |s.rings[v]|, s.p[v], s.pcol[v])
  }

  ghost predicate AllRight(s: Coal) {
    Shaped(s) && forall v :: 0 <= v < |s.rings| ==> RightAt(s, v)
  }

  /** Whether serving the next entry of a vector wraps its ring. */
  ghost predicate Wraps(s: Coal, v: nat)
    requires Shaped(s) && v < |s.rings|
  {
    s.idx[v] + 1 == |s.rings[v]|
  }

  /** One turn of the loop for vector `v`. */
  function Serve(s: Coal, v: nat): Coal
    requires Shaped(s) && v < |s.rings| && s.unread[v] != []
  {
    s.(idx := s.idx[v := NextIdx(s.idx[v], |s.rings[v]|)],
       color := s.color[0 := if s.idx[v] + 1 == |s.rings[v]| then !s.color[0] else s.color[0]],
       unread := s.unread[v := s.unread[v][1..]])
  }

  /** The device writes one entry for vector `v`. */
  function Arrive(s: Coal, v: nat, qid: nat): Coal
    requires Shaped(s) && v < |s.rings|
  {
    var n := |s.rings[v]|;
    s.(rings := s.rings[v := s.rings[v][s.p[v] := Slot(s.pcol[v], qid)]],
       p := s.p[v := NextIdx(s.p[v], n)], pcol := s.pcol[v := NextColour(s.p[v], s.pcol[v], n)],
       unread := s.unread[v := s.unread[v] + [qid]])
  }

  lemma ArriveKeeps(s: Coal, v: nat, qid: nat)
    requires AllRight(s) && v < |s.rings| && |s.unread[v]| < |s.rings[v]|
    ensures AllRight(Arrive(s, v, qid))
  {
    hide Consistent, ProducerAt;
    assert RightAt(s, v);
    ProduceKeeps(s.rings[v], s.idx[v], s.color[v], s.unread[v], s.p[v], s.pcol[v], qid);
    var t := Arrive(s, v, qid);
    forall w | 0 <= w < |t.rings| ensures RightAt(t, w) { assert RightAt(s, w); }
  }

  /** A wrap of another ring turns the colour test of the first ring round: it now succeeds
      exactly when nothing is unread. */
  lemma WrapHurtsFirst(s: Coal, v: nat)
    requires AllRight(s) && 0 < v < |s.rings| && s.unread[v] != [] && Wraps(s, v)
    ensures var t := Serve(s, v);
            t.rings[0][t.idx[0]].color == t.color[0] <==> t.unread[0] == []
  {
    assert RightAt(s, 0);
    ColourTest(s.rings[0], s.idx[0], s.color[0], s.unread[0]);
  }

  /** And that ring itself, whose own colour stays: either every slot now looks new, so that the
      loop never ends, or its oldest unread entry looks old. */
  lemma WrapHurtsItself(s: Coal, v: nat)
    requires AllRight(s) && 0 < v < |s.rings| && s.unread[v] != [] && Wraps(s, v)
    ensures var t := Serve(s, v);
            && (t.unread[v] == [] ==> forall k :: 0 <= k < |t.rings[v]| ==> t.rings[v][k].color == t.color[v])
            && (t.unread[v] != [] ==> t.rings[v][t.idx[v]] == Slot(!t.color[v], t.unread[v][0]))
  {
    assert RightAt(s, v);
    WrapWithoutFlip(s.rings[v], s.idx[v], s.color[v], s.unread[v]);
  }

  /** Serving an entry leaves all vectors right if and only if it wraps no ring but the first. */
  lemma ServeRightIff(s: Coal, v: nat)
    requires AllRight(s) && v < |s.rings| && s.unread[v] != []
    ensures Shaped(Serve(s, v)) && (AllRight(Serve(s, v)) <==> v == 0 || !Wraps(s, v))
  {
    hide Consistent, ProducerAt;
    var t := Serve(s, v);
    assert RightAt(s, v);
    if v == 0 || !Wraps(s, v) {
      ConsumeKeeps(s.rings[v], s.idx[v], s.color[v], s.unread[v]);
      ProducerFollows(s.idx[v], s.color[v], |s.unread[v]|, |s.rings[v]|, s.p[v], s.pcol[v]);
      forall w | 0 <= w < |t.rings| ensures RightAt(t, w) { assert RightAt(s, w); }
    } else {
      WrapHurtsFirst(s, v);
      if AllRight(t) {
        assert RightAt(t, 0);
        ColourTest(t.rings[0], t.idx[0], t.color[0], t.unread[0]);
      }
    }
  }

  /** A ring that wraps without its own colour flipping. */
  lemma WrapWithoutFlip(ring: seq<Slot<nat>>, c: nat, col: bool, unread: seq<nat>)
    requires Consistent(ring, c, col, unread) && c + |unread| >= |ring|
    ensures var left := unread[|ring| - c..];
            && (left == [] ==> forall k :: 0 <= k < |ring| ==> ring[k].color == col)
            && (left != [] ==> ring[0] == Slot(!col, left[0]))
  {
    var n := |ring|;
    forall k | 0 <= k < n && |unread| == n - c ensures ring[k].color == col {
      var d := if k >= c then k - c else k + n - c;
      assert RingIdxIncr(c, d, n) == k;
    }
    if |unread| > n - c {
      assert RingIdxIncr(c, n - c, n) == 0;
    }
  }

  /** One turn of the loop, whatever the entry there is. */
  function Spin(s: Coal, v: nat): Coal
    requires Shaped(s) && v < |s.rings|
  {
    s.(idx := s.idx[v := NextIdx(s.idx[v], |s.rings[v]|)],
       color := s.color[0 := if s.idx[v] + 1 == |s.rings[v]| then !s.color[0] else s.color[0]])
  }

  lemma SpinShaped(s: Coal, v: nat)
    requires Shaped(s) && v < |s.rings|
    ensures Shaped(Spin(s, v)) && Spin(s, v).rings == s.rings && (v > 0 ==> Spin(s, v).color[v] == s.color[v])
    ensures s.unread[v] != [] ==> Serve(s, v) == Spin(s, v).(unread := s.unread[v := s.unread[v][1..]])
  {
  }

  function Spins(s: Coal, v: nat, k: nat): (t: Coal)
    requires Shaped(s) && v < |s.rings|
    ensures Shaped(t) && t.rings == s.rings && (v > 0 ==> t.color[v] == s.color[v])
    decreases k
  {
    if k == 0 then s else SpinShaped(s, v); Spins(Spin(s, v), v, k - 1)
  }

  /** A ring other than the first whose unread entries end exactly at its wrap: after any number
      of turns the colour test succeeds, so the loop never ends. */
  lemma LoopsForever(s: Coal, v: nat, k: nat)
    requires AllRight(s) && 0 < v < |s.rings| && s.idx[v] + |s.unread[v]| == |s.rings[v]|
    ensures var t := Spins(s, v, k);
            t.rings[v][t.idx[v]].color == t.color[v]
  {
    assert RightAt(s, v);
    WrapWithoutFlip(s.rings[v], s.idx[v], s.color[v], s.unread[v]);
  }

  // ----- runs over all vectors -----

  datatype Event = Arrived(v: nat, qid: nat) | Served(v: nat)

  /** The device stays within a lap; only unread entries are served. */
  ghost predicate Possible(s: Coal, e: Event)
    requires Shaped(s)
  {
    e.v < |s.rings| && if e.Arrived? then |s.unread[e.v]| < |s.rings[e.v]| else s.unread[e.v] != []
  }

  function After(s: Coal, e: Event): Coal
    requires Shaped(s) && Possible(s, e)
  {
    match e
    case Arrived(v, qid) => Arrive(s, v, qid)
    case Served(v) => Serve(s, v)
  }

  lemma AfterShaped(s: Coal, e: Event)
    requires Shaped(s) && Possible(s, e)
    ensures Shaped(After(s, e))
  {
  }

  ghost predicate Run(s: Coal, es: seq<Event>)
    requires Shaped(s)
    decreases |es|
  {
    es == [] || (Possible(s, es[0]) && (AfterShaped(s, es[0]); Run(After(s, es[0]), es[1..])))
  }

  /** All vectors are right in every state of the run. */
  ghost predicate RightThroughout(s: Coal, es: seq<Event>)
    requires Shaped(s) && Run(s, es)
    decreases |es|
  {
    AllRight(s) && (es == [] || (AfterShaped(s, es[0]); RightThroughout(After(s, es[0]), es[1..])))
  }

  /** No ring but the first wraps in the run. */
  ghost predicate OnlyFirstWraps(s: Coal, es: seq<Event>)
    requires Shaped(s) && Run(s, es)
    decreases |es|
  {
    es == [] ||
    (&& (es[0].Served? && es[0].v != 0 ==> !Wraps(s, es[0].v))
     && (AfterShaped(s, es[0]); OnlyFirstWraps(After(s, es[0]), es[1..])))
  }

  /** Over any run from a state in which all vectors are right, they stay right throughout if
      and only if no ring but the first wraps. */
  lemma {:induction false} RightIffOnlyFirstWraps(s: Coal, es: seq<Event>)
    requires AllRight(s) && Run(s, es)
    ensures RightThroughout(s, es) <==> OnlyFirstWraps(s, es)
    decreases |es|
  {
    hide RightAt, Serve, Arrive;
    if es != [] {
      AfterShaped(s, es[0]);
      match es[0]
      case Arrived(v, qid) =>
        ArriveKeeps(s, v, qid);
        RightIffOnlyFirstWraps(After(s, es[0]), es[1..]);
      case Served(v) =>
        ServeRightIff(s, v);
        if AllRight(After(s, es[0])) {
          RightIffOnlyFirstWraps(After(s, es[0]), es[1..]);
        } else {
          NotThroughout(After(s, es[0]), es[1..]);
        }
    }
  }

  lemma NotThroughout(s: Coal, es: seq<Event>)
    requires Shaped(s) && Run(s, es) && !AllRight(s)
    ensures !RightThroughout(s, es)
  {
  }

  // ----- the list itself -----

  /** Index after `k` turns that began at `c`. */
  function Place(c: nat, k: nat, n: nat): nat { if c + k < n then c + k else c + k - n }

  /** A ring as it stands after `k` turns: the test against its proper colour, and what is left. */
  lemma Turn(ring: seq<Slot<nat>>, c: nat, col: bool, unread: seq<nat>, k: nat)
    requires Consistent(ring, c, col, unread) && k <= |unread|
    ensures var n := |ring|;
            && c < n && |unread| <= n && Place(c, k, n) < n && ColourAt(c, col, 0, n) == col
            && (c + k < n ==> ColourAt(c, col, k, n) == col) && (c + k >= n ==> ColourAt(c, col, k, n) == !col)
            && (ring[Place(c, k, n)].color == ColourAt(c, col, k, n) <==> k < |unread|)
            && (k < |unread| ==> ring[Place(c, k, n)].data == unread[k])
            && (k < n ==> ColourAt(c, col, k + 1, n) == if c + k + 1 == n then !col else ColourAt(c, col, k, n))
            && Place(c, 0, n) == c && (c + k == n ==> Place(c, k, n) == 0)
            && (k < n ==> NextIdx(Place(c, k, n), n) == Place(c, k + 1, n))
            && (k < n ==> (Place(c, k, n) + 1 == n <==> c + k + 1 == n))
            && (k == |unread| ==> Consistent(ring, Place(c, k, n), ColourAt(c, col, k, n), []))
  {
    var n := |ring|;
    assert k < n ==> RingIdxIncr(c, k, n) == Place(c, k, n);
    assert RingIdxIncr(c, 0, n) == c;
    if k == |unread| {
      var d := Place(c, k, n);
      forall j | 0 <= j < n ensures ring[RingIdxIncr(d, j, n)].color != ColourAt(d, ColourAt(c, col, k, n), j, n) {
        var i := if k + j < n then k + j else k + j - n;
        assert RingIdxIncr(d, j, n) == RingIdxIncr(c, i, n);
      }
    }
  }

  class CoalList {
    /** One ring of queue ids per vector, with its consumer index and expected colour. */
    const rings: seq<array<Slot<nat>>>
    const swCidx: array<nat>
    const color: array<bool>

    constructor (rings: seq<array<Slot<nat>>>)
      ensures this.rings == rings && fresh(swCidx) && fresh(color)
      ensures swCidx.Length == |rings| && color.Length == |rings|
      ensures forall v :: 0 <= v < |rings| ==> swCidx[v] == 0 && color[v]
    {
      this.rings := rings;
      swCidx := new nat[|rings|](_ => 0);
      color := new bool[|rings|](_ => true);
    }

    ghost predicate Unread(v: nat, unread: seq<nat>)
      requires v < |rings| && v < swCidx.Length && v < color.Length
      reads swCidx, color, rings[v]
    {
      Consistent(rings[v][..], swCidx[v], color[v], unread)
    }

    /** The loop for vector `v`. It serves all unread entries, once each and in order, unless a
        ring other than the first wraps on the way: then it stops at the wrap, with the colour
        of the first entry flipped. If such a ring has unread entries up to exactly its end,
        the loop never ends. */
    method Aggregate(v: nat, ghost unread: seq<nat>) returns (served: seq<nat>)
      requires swCidx.Length == color.Length == |rings| && v < |rings| && Unread(v, unread)
      requires v == 0 || swCidx[v] + |unread| != rings[v].Length
      modifies swCidx, color
      ensures old(swCidx[v]) < rings[v].Length
      ensures v == 0 || old(swCidx[v]) + |unread| < rings[v].Length ==> served == unread && Unread(v, [])
      ensures v != 0 && old(swCidx[v]) + |unread| < rings[v].Length ==> color[..] == old(color[..])
      ensures v != 0 && old(swCidx[v]) + |unread| > rings[v].Length ==>
                && served == unread[..rings[v].Length - old(swCidx[v])]
                && swCidx[v] == 0 && color[..] == old(color[..])[0 := !old(color[0])]
      ensures forall w :: 0 <= w < |rings| && w != v ==> swCidx[w] == old(swCidx[w])
      ensures forall w :: 0 < w < |rings| ==> color[w] == old(color[w])
    {
      hide Consistent, ColourAt, Place, NextIdx;
      served := [];
      ghost var c, col, n := swCidx[v], color[v], rings[v].Length;
      ghost var end := if v == 0 || c + |unread| < n then |unread| else n - c;
      Turn(rings[v][..], c, col, unread, 0);
      while rings[v][swCidx[v]].color == color[v]
        invariant |served| <= end && served == unread[..|served|] && swCidx[v] == Place(c, |served|, n) && swCidx[v] < n
        invariant color[v] == if v == 0 then ColourAt(c, col, |served|, n) else col
        invariant v != 0 ==> color[0] == if c + |served| < n then old(color[0]) else !old(color[0])
        invariant forall w :: 0 <= w < |rings| && w != v ==> swCidx[w] == old(swCidx[w])
        invariant forall w :: 0 < w < |rings| ==> color[w] == old(color[w])
        decreases end - |served|
      {
        Turn(rings[v][..], c, col, unread, |served|);
        served := served + [rings[v][swCidx[v]].data];
        Advance(v);
        Turn(rings[v][..], c, col, unread, |served|);
      }
      Turn(rings[v][..], c, col, unread, |served|);
    }

    /** Stepping to the next entry of ring `v`; on a wrap it is the colour of the first list
        entry that flips. */
    method Advance(v: nat)
      requires swCidx.Length == color.Length == |rings| && v < |rings| && swCidx[v] < rings[v].Length
      modifies swCidx, color
      ensures swCidx[..] == old(swCidx[..])[v := NextIdx(old(swCidx[v]), rings[v].Length)]
      ensures color[..] ==
              old(color[..])[0 := if old(swCidx[v]) + 1 == rings[v].Length then !old(color[0]) else old(color[0])]
    {
      if swCidx[v] + 1 == rings[v].Length {
        color[0] := !color[0];
        swCidx[v] := 0;
      } else {
        swCidx[v] := swCidx[v] + 1;
      }
    }
  }
}
