/** What a card makes of the table that `init_tlb` writes. The table has room for 32 gigabytes,
    so from the seventeenth peer on later windows take the slots of earlier gigabytes. */
module TlbTheorems {
  import opened Bits
  import opened Tlb

  predicate Shape(phys: seq<seq<nat>>) {
    |phys| == 8 && forall f :: 0 <= f < 8 ==> |phys[f]| == 1024
  }

  /** Where byte `x` of gigabyte `g` of the virtual range should lead: to the huge pages for the
      first sixteen, then to the BAR of each peer. */
  function Target(phys: seq<seq<nat>>, peers: seq<Device>, g: nat, x: nat): nat
    requires Shape(phys) && g < 16 + |peers| && x < GB
  {
    if g < 16 then phys[g / 2][512 * (g % 2) + x / PAGE] + x % PAGE else peers[g - 16].bar + x
  }

  /** Of `c` gigabytes written, the last one to the slots of gigabyte `g`. */
  function Keeper(c: nat, g: nat): nat
    requires g < c
  {
    g % 32 + (c - 1 - g % 32) / 32 * 32
  }

  /** The entry for byte `x` of gigabyte `g` leads to its target. */
  lemma EntryLeads(ram: Ram, table: seq<Entry>, base: nat, phys: seq<seq<nat>>, peers: seq<Device>, g: nat, x: nat)
    requires Written(ram, table, base, phys, peers) && g < 16 + |peers| && x < GB
    ensures Shape(phys) && Target(phys, peers, g, x) < WORD * WORD
    ensures 512 * g + x / PAGE < |table|
    ensures table[512 * g + x / PAGE].paddr + x % PAGE == Target(phys, peers, g, x)
  {
    var i := x / PAGE;
    if g < 16 {
      assert HostPage(table, base, phys, g / 2, 512 * (g % 2) + i);
    } else {
      assert PeerPage(table, base, peers, g - 16, i);
    }
  }

  /** The last write to a slot is that of the same page of the keeper. */
  lemma LastOfBlock(c: nat, g: nat, i: nat)
    requires g < c && i < 512
    ensures Last(512 * c, (512 * g + i) % SLOTS) == 512 * Keeper(c, g) + i && Keeper(c, g) < c
  {
    var k := (512 * g + i) % SLOTS;
    assert k == 512 * (g % 32) + i;
    var q := (c - 1 - g % 32) / 32;
    assert (512 * c - 1 - k) / SLOTS == q;
  }

  /** Which addresses have which page number. */
  lemma PageOf(base: nat, va: nat)
    requires base % PAGE == 0 && base <= va
    ensures va / PAGE - base / PAGE == (va - base) / PAGE && va % PAGE == (va - base) % PAGE
  {
  }

  lemma PagesBelow(base: nat, n: nat)
    requires base % PAGE == 0 && base + n * PAGE < WORD * WORD
    ensures (base / PAGE + n % COUNTS) % PAGES == base / PAGE + n % COUNTS
  {
  }

  /** Page `p` of the range, as the slots and the counter have it. */
  lemma LookPage(ram: Ram, table: seq<Entry>, base: nat, phys: seq<seq<nat>>, peers: seq<Device>, p: nat, va: nat)
    requires Written(ram, table, base, phys, peers) && p < |table|
    requires base <= va && (va - base) / PAGE == p
    ensures Look(ram, va) ==
            if p < |table| % COUNTS
            then Hit((table[Last(|table|, p % SLOTS)].paddr + (va - base) % PAGE) % (WORD * WORD)) else Miss
  {
    hide Complete;
    TableSize(ram, table, base, phys, peers);
    PageOf(base, va);
    PagesBelow(base, |table|);
  }

  lemma TableSize(ram: Ram, table: seq<Entry>, base: nat, phys: seq<seq<nat>>, peers: seq<Device>)
    requires Written(ram, table, base, phys, peers)
    ensures |ram.slots| == SLOTS && |table| == 512 * (16 + |peers|) && base + |table| * PAGE < WORD * WORD
    ensures |table| % COUNTS == 512 * ((16 + |peers|) % 64)
  {
    var c := 16 + |peers|;
    ModUnique(512 * c, c / 64, 512 * (c % 64), COUNTS);
  }

  /** The card, exactly: gigabyte `g` of the range is answered if and only if it lies below the
      write counter, and then with the bytes of its keeper. */
  lemma LookIs(ram: Ram, table: seq<Entry>, base: nat, phys: seq<seq<nat>>, peers: seq<Device>, g: nat, x: nat)
    requires Written(ram, table, base, phys, peers) && g < 16 + |peers| && x < GB
    ensures Shape(phys) && Keeper(16 + |peers|, g) < 16 + |peers|
    ensures Look(ram, base + g * GB + x) ==
            if g < (16 + |peers|) % 64 then Hit(Target(phys, peers, Keeper(16 + |peers|, g), x)) else Miss
  {
    hide Written, Target, Look, Keeper, Last;
    var c, i := 16 + |peers|, x / PAGE;
    TableSize(ram, table, base, phys, peers);
    InGigabyte(base, base + g * GB + x, g, x);
    LastOfBlock(c, g, i);
    EntryLeads(ram, table, base, phys, peers, g, x);
    EntryLeads(ram, table, base, phys, peers, Keeper(c, g), x);
    LookPage(ram, table, base, phys, peers, 512 * g + i, base + g * GB + x);
  }

  lemma InGigabyte(base: nat, va: nat, g: nat, x: nat)
    requires va == base + g * GB + x && x < GB
    ensures (va - base) / PAGE == 512 * g + x / PAGE && (va - base) % PAGE == x % PAGE
  {
  }

  /** Addresses outside the range are never answered. */
  lemma OutsideMisses(ram: Ram, table: seq<Entry>, base: nat, phys: seq<seq<nat>>, peers: seq<Device>, va: nat)
    requires Written(ram, table, base, phys, peers) && (va < base || WindowBase(base, |peers|) <= va)
    ensures Look(ram, va) == Miss
  {
    PagesBelow(base, |table|);
    if base <= va { PageOf(base, va); }
  }

  // ----- how many peers are too many -----

  /** No huge page lies in a BAR and no two BARs are the same. */
  ghost predicate Apart(phys: seq<seq<nat>>, peers: seq<Device>)
    requires Shape(phys)
  {
    && (forall f, i, j :: 0 <= f < 8 && 0 <= i < 1024 && 0 <= j < |peers| ==>
          phys[f][i] + PAGE <= peers[j].bar || peers[j].bar + GB <= phys[f][i])
    && (forall j, k :: 0 <= j < k < |peers| ==> peers[j].bar != peers[k].bar)
  }

  lemma OtherTarget(phys: seq<seq<nat>>, peers: seq<Device>, g: nat, h: nat, x: nat)
    requires Shape(phys) && Apart(phys, peers) && g < h < 16 + |peers| && 16 <= h && x < GB
    ensures Target(phys, peers, g, x) != Target(phys, peers, h, x)
  {
    if g < 16 {
      var f, i := g / 2, 512 * (g % 2) + x / PAGE;
      assert phys[f][i] + PAGE <= peers[h - 16].bar || peers[h - 16].bar + GB <= phys[f][i];
    }
  }

  /** An address of gigabyte `g` is translated right if and only if the peers are at most
      16 + `g` and fewer than 48. */
  lemma RightIff(ram: Ram, table: seq<Entry>, base: nat, phys: seq<seq<nat>>, peers: seq<Device>, g: nat, x: nat)
    requires Written(ram, table, base, phys, peers) && Shape(phys) && Apart(phys, peers)
    requires g < 16 + |peers| && x < GB
    ensures Look(ram, base + g * GB + x) == Hit(Target(phys, peers, g, x)) <==> |peers| <= 16 + g && |peers| < 48
  {
    hide Written, Target, Look, Apart;
    LookIs(ram, table, base, phys, peers, g, x);
    var h := Keeper(16 + |peers|, g);
    if h != g { OtherTarget(phys, peers, g, h, x); }
  }

  /** Every address of the range is translated right if and only if there are at most 16 peers. */
  lemma AllRightIff(ram: Ram, table: seq<Entry>, base: nat, phys: seq<seq<nat>>, peers: seq<Device>)
    requires Written(ram, table, base, phys, peers) && Shape(phys) && Apart(phys, peers)
    ensures (forall g: nat, x: nat :: g < 16 + |peers| && x < GB ==>
               Look(ram, base + g * GB + x) == Hit(Target(phys, peers, g, x)))
            <==> |peers| <= 16
  {
    hide Written, Target, Look, Apart;
    TableSize(ram, table, base, phys, peers);
    RightIff(ram, table, base, phys, peers, 0, 0);
    forall g: nat, x: nat | g < 16 + |peers| && x < GB && |peers| <= 16
      ensures Look(ram, base + g * GB + x) == Hit(Target(phys, peers, g, x))
    {
      RightIff(ram, table, base, phys, peers, g, x);
    }
  }

  /** The card answers the range from the base to its write counter, and nothing else. */
  lemma MappedRange(ram: Ram, table: seq<Entry>, base: nat, phys: seq<seq<nat>>, peers: seq<Device>, va: nat)
    requires Written(ram, table, base, phys, peers)
    ensures Look(ram, va).Hit? <==> base <= va < base + (16 + |peers|) % 64 * GB
  {
    hide Written, Target, Look, Keeper;
    if base <= va < WindowBase(base, |peers|) {
      LookIs(ram, table, base, phys, peers, (va - base) / GB, (va - base) % GB);
    } else {
      OutsideMisses(ram, table, base, phys, peers, va);
    }
  }

  /** With 17 peers the first gigabyte of the huge pages leads to the BAR of the last one. */
  lemma SeventeenPeers(ram: Ram, table: seq<Entry>, base: nat, phys: seq<seq<nat>>, peers: seq<Device>, x: nat)
    requires Written(ram, table, base, phys, peers) && |peers| == 17 && x < GB
    ensures Look(ram, base + x) == Hit(peers[16].bar + x)
  {
    hide Written, Look;
    LookIs(ram, table, base, phys, peers, 0, x);
  }

  /** With 48 peers the counter is back at zero and the card answers nothing. */
  lemma FortyEightPeers(ram: Ram, table: seq<Entry>, base: nat, phys: seq<seq<nat>>, peers: seq<Device>, va: nat)
    requires Written(ram, table, base, phys, peers) && |peers| == 48
    ensures Look(ram, va) == Miss
  {
    hide Written, Look;
    MappedRange(ram, table, base, phys, peers, va);
  }

  // ----- peer to peer -----

  /** What a card reaches when it uses the translation of a peer's bridge address. */
  function Reached(ram: Ram, tran: map<(nat, nat), int>, peer: Device, bus: nat, off: nat): Answer
    requires |ram.slots| == SLOTS
  {
    var va := Translation(tran, peer.bus, bus, peer.bridge + off);
    if va < 0 then Miss else Look(ram, va)
  }

  lemma ReachedIs(ram: Ram, table: seq<Entry>, base: nat, phys: seq<seq<nat>>, peers: seq<Device>,
                  tran: map<(nat, nat), int>, bus: nat, j: nat, off: nat)
    requires Written(ram, table, base, phys, peers) && Recorded(tran, base, bus, peers)
    requires j < |peers| && off < GB
    ensures Reached(ram, tran, peers[j], bus, off) == Look(ram, base + (16 + j) * GB + off)
  {
  }

  /** The translation of the bridge address of peer `j` and the card agree, for every offset
      below 1 GB, if and only if the peers are at most 32 + `j` and fewer than 48. */
  lemma PeerToPeer(ram: Ram, table: seq<Entry>, base: nat, phys: seq<seq<nat>>, peers: seq<Device>,
                   tran: map<(nat, nat), int>, bus: nat, j: nat, off: nat)
    requires Written(ram, table, base, phys, peers) && Recorded(tran, base, bus, peers)
    requires Shape(phys) && Apart(phys, peers) && j < |peers| && off < GB
    ensures Reached(ram, tran, peers[j], bus, off) == Hit(peers[j].bar + off) <==>
            |peers| <= 32 + j && |peers| < 48
  {
    hide Written, Recorded, Apart, Look, Reached;
    ReachedIs(ram, table, base, phys, peers, tran, bus, j, off);
    RightIff(ram, table, base, phys, peers, 16 + j, off);
  }

  /** Every peer can be reached if and only if there are at most 32 of them. */
  lemma AllPeersIff(ram: Ram, table: seq<Entry>, base: nat, phys: seq<seq<nat>>, peers: seq<Device>,
                    tran: map<(nat, nat), int>, bus: nat)
    requires Written(ram, table, base, phys, peers) && Recorded(tran, base, bus, peers)
    requires Shape(phys) && Apart(phys, peers)
    ensures (forall j: nat, off: nat :: j < |peers| && off < GB ==>
               Reached(ram, tran, peers[j], bus, off) == Hit(peers[j].bar + off))
            <==> |peers| <= 32
  {
    hide Written, Recorded, Apart, Look, Reached;
    TableSize(ram, table, base, phys, peers);
    if |peers| > 0 { PeerToPeer(ram, table, base, phys, peers, tran, bus, 0, 0); }
    forall j: nat, off: nat | j < |peers| <= 32 && off < GB
      ensures Reached(ram, tran, peers[j], bus, off) == Hit(peers[j].bar + off)
    {
      PeerToPeer(ram, table, base, phys, peers, tran, bus, j, off);
    }
  }

  /** With 33 peers what is meant for the first reaches the last. */
  lemma ThirtyThreePeers(ram: Ram, table: seq<Entry>, base: nat, phys: seq<seq<nat>>, peers: seq<Device>,
                         tran: map<(nat, nat), int>, bus: nat, off: nat)
    requires Written(ram, table, base, phys, peers) && Recorded(tran, base, bus, peers)
    requires |peers| == 33 && off < GB
    ensures Reached(ram, tran, peers[0], bus, off) == Hit(peers[32].bar + off)
  {
    hide Written, Recorded, Look, Reached;
    ReachedIs(ram, table, base, phys, peers, tran, bus, 0, off);
    LookIs(ram, table, base, phys, peers, 16, off);
  }

  // ----- a card that loses the start of the region -----

  /** Eighteen cards, and a region of pages that are nobody's BAR. */
  function EighteenCards(): seq<Device> {
    seq(18, d requires 0 <= d => Device(d, 0, 64 * GB + d * GB))
  }

  function SomePages(): seq<seq<nat>> {
    seq(8, f requires 0 <= f => seq(1024, i requires 0 <= i => (1024 * f + i) * PAGE))
  }

  lemma {:induction false} PeersOfFirst(devs: seq<Device>, n: nat)
    requires 0 < n <= |devs| && forall i :: 0 <= i < |devs| ==> devs[i].bus == i
    ensures Peers(devs[..n], 0) == devs[1..n]
  {
    PeersStep(devs, 0, n - 1);
    if n > 1 { PeersOfFirst(devs, n - 1); }
  }

  /** `init_tlb` on the first of them: the region's first gigabyte is translated into the BAR of
      the last one, although what the driver wrote is what it meant to write. */
  method FirstGigabyteLost() returns (card: Card, translator: Translator)
    ensures card.Valid() && Apart(SomePages(), Peers(EighteenCards(), 0))
    ensures Written(card.View(), card.table, 0, SomePages(), Peers(EighteenCards(), 0))
    ensures forall x: nat :: x < GB ==> Look(card.View(), x) == Hit(81 * GB + x)
    ensures forall x: nat :: x < GB ==> Target(SomePages(), Peers(EighteenCards(), 0), 0, x) == x
  {
    hide Written, Look, Target, Apart, Card.Valid, Complete, Recorded, WindowBase, EighteenCards, SomePages, Mappable;
    var devs := EighteenCards();
    var ram := new nat[SLOTS];
    card := new Card(ram);
    translator := new Translator();
    CardsFit();
    CardsApart();
    LastCard();
    translator.InitTlb(card, 0, 0, devs, SomePages());
    TableSize(card.View(), card.table, 0, SomePages(), Peers(devs, 0));
    forall x: nat | x < GB
      ensures Look(card.View(), x) == Hit(81 * GB + x) && Target(SomePages(), Peers(devs, 0), 0, x) == x
    {
      SeventeenPeers(card.View(), card.table, 0, SomePages(), Peers(devs, 0), x);
      FirstPages(Peers(devs, 0), x);
    }
  }

  lemma LastCard()
    ensures Peers(EighteenCards(), 0) == EighteenCards()[1..]
    ensures |Peers(EighteenCards(), 0)| == 17 && Peers(EighteenCards(), 0)[16].bar == 81 * GB
  {
    PeersOfFirst(EighteenCards(), 18);
    assert EighteenCards()[..18] == EighteenCards();
  }

  lemma FirstPages(peers: seq<Device>, x: nat)
    requires x < GB
    ensures Shape(SomePages()) && Target(SomePages(), peers, 0, x) == x
  {
    PageAt(0, x / PAGE);
  }

  lemma PageAt(f: nat, i: nat)
    requires f < 8 && i < 1024
    ensures Shape(SomePages()) && SomePages()[f][i] == (1024 * f + i) * PAGE
  {
  }

  lemma CardAt(d: nat)
    requires d < 18
    ensures |EighteenCards()| == 18 && EighteenCards()[d] == Device(d, 0, 64 * GB + d * GB)
  {
  }

  lemma CardsFit()
    ensures Shape(SomePages()) && Mappable(0, EighteenCards(), SomePages())
  {
    hide EighteenCards, SomePages;
    var devs, phys := EighteenCards(), SomePages();
    PageAt(0, 0);
    CardAt(0);
    forall f, i | 0 <= f < 8 && 0 <= i < 1024 ensures phys[f][i] + PAGE <= WORD * WORD { PageAt(f, i); }
    forall d | d in devs ensures d.bar + GB < WORD * WORD {
      var k :| 0 <= k < 18 && devs[k] == d;
      CardAt(k);
    }
    forall i, j | 0 <= i < j < 18 ensures devs[i].bus < devs[j].bus {
      CardAt(i);
      CardAt(j);
    }
  }

  lemma CardsApart()
    ensures Shape(SomePages()) && |EighteenCards()| == 18 && Apart(SomePages(), EighteenCards()[1..])
  {
    hide EighteenCards, SomePages;
    PageAt(0, 0);
    CardAt(0);
    var phys, peers := SomePages(), EighteenCards()[1..];
    forall f, i, j | 0 <= f < 8 && 0 <= i < 1024 && 0 <= j < 17
      ensures phys[f][i] + PAGE <= peers[j].bar || peers[j].bar + GB <= phys[f][i]
    {
      PageAt(f, i);
      CardAt(j + 1);
    }
    forall j, k | 0 <= j < k < 17 ensures peers[j].bar != peers[k].bar {
      CardAt(j + 1);
      CardAt(k + 1);
    }
  }
}
