/** The address translation table of one card: its hardware (TLB.scala), the paging loops of
    `init_tlb`, which map the 16 GB huge-page region and then a 1 GB window for every other
    card, and the peer-to-peer address translation that must agree with them. */
module Tlb {
  import opened Bits

  const PAGE := 2097152
  const GB := 1024 * 1024 * 1024
  const WORD := 0x1_0000_0000

  /** The table has 16384 slots; its write counter has 15 bits, page numbers have 43. */
  const SLOTS := 16384
  const COUNTS := 32768
  const PAGES := 0x800_0000_0000

  /** An entry of `device_list` as far as it matters here: the mapped bridge BAR and the
      physical base of that BAR. The list is ordered by bus number, without repetition. */
  datatype Device = Device(bus: nat, bridge: nat, bar: nat)

  datatype Entry = Entry(vaddr: nat, paddr: nat)

  /** The other cards, in list order. */
  function Peers(devs: seq<Device>, bus: nat): seq<Device> {
    if devs == [] then []
    else
      var rest := Peers(devs[..|devs| - 1], bus);
      if devs[|devs| - 1].bus != bus then rest + [devs[|devs| - 1]] else rest
  }

  lemma PeersStep(devs: seq<Device>, bus: nat, n: nat)
    requires n <= |devs|
    ensures Peers([], bus) == [] && devs[..0] == []
    ensures n < |devs| ==>
              Peers(devs[..n + 1], bus) ==
              if devs[n].bus != bus then Peers(devs[..n], bus) + [devs[n]] else Peers(devs[..n], bus)
  {
    if n < |devs| { assert devs[..n + 1][..n] == devs[..n]; }
  }

  lemma {:induction false} PeersListed(devs: seq<Device>, bus: nat)
    ensures |Peers(devs, bus)| <= |devs| && forall d :: d in Peers(devs, bus) ==> d in devs
  {
    if devs != [] { PeersListed(devs[..|devs| - 1], bus); }
  }

  /** Virtual address of table entry `k`. */
  function VPage(base: nat, k: nat): nat {
    base + k * PAGE
  }

  /** Entry `i` of huge-page file `f`; the first file is the lowest one in memory. */
  ghost predicate HostPage(table: seq<Entry>, base: nat, phys: seq<seq<nat>>, f: nat, i: nat)
    requires f < |phys| && i < |phys[f]|
  {
    1024 * f + i < |table| && table[1024 * f + i] == Entry(VPage(base, 1024 * f + i), phys[f][i])
  }

  /** Entry `i` of the window of peer number `j`. */
  ghost predicate PeerPage(table: seq<Entry>, base: nat, peers: seq<Device>, j: nat, i: nat)
    requires j < |peers|
  {
    && 8192 + 512 * j + i < |table|
    && table[8192 + 512 * j + i] == Entry(VPage(base, 8192 + 512 * j + i), peers[j].bar + i * PAGE)
  }

  /** The table that `init_tlb` is to write. */
  ghost predicate Complete(table: seq<Entry>, base: nat, phys: seq<seq<nat>>, peers: seq<Device>) {
    && |phys| == 8 && (forall f :: 0 <= f < 8 ==> |phys[f]| == 1024)
    && |table| == 8192 + 512 * |peers|
    && (forall k :: 0 <= k < |table| ==> table[k].vaddr == VPage(base, k))
    && (forall f, i :: 0 <= f < 8 && 0 <= i < 1024 ==> HostPage(table, base, phys, f, i))
    && (forall j, i :: 0 <= j < |peers| && 0 <= i < 512 ==> PeerPage(table, base, peers, j, i))
  }

  /** Base of the window of peer number `j`. */
  function WindowBase(base: nat, j: nat): nat {
    base + 16 * GB + j * GB
  }

  // ----- the hardware -----

  datatype Ram = Ram(slots: seq<nat>, basePage: nat, counter: nat)

  /** A write (TLB.scala:51-58): the address of an entry is kept only if it is the base. */
  function Latch(ram: Ram, e: Entry, isBase: bool): Ram
    requires |ram.slots| == SLOTS
  {
    if isBase then Ram(ram.slots[0 := e.paddr], e.vaddr / PAGE, 1)
    else ram.(slots := ram.slots[ram.counter % SLOTS := e.paddr], counter := (ram.counter + 1) % COUNTS)
  }

  datatype Answer = Miss | Hit(paddr: nat)

  /** A lookup (TLB.scala:37-43 and 65-66). */
  function Look(ram: Ram, va: nat): Answer
    requires |ram.slots| == SLOTS
  {
    var page := va / PAGE;
    if page < ram.basePage || page >= (ram.basePage + ram.counter) % PAGES then Miss
    else Hit((ram.slots[(page - ram.basePage) % SLOTS] + va % PAGE) % (WORD * WORD))
  }

  /** Of `n` writes, the last one to slot `k`. */
  function Last(n: nat, k: nat): nat
    requires k < n
  {
    k + (n - 1 - k) / SLOTS * SLOTS
  }

  /** The slots and the counter as the writes of `table` leave them. */
  ghost predicate Loaded(ram: Ram, table: seq<Entry>) {
    && |ram.slots| == SLOTS && ram.counter == |table| % COUNTS
    && forall k :: 0 <= k < SLOTS && k < |table| ==> ram.slots[k] == table[Last(|table|, k)].paddr
  }

  lemma LastStep(n: nat, k: nat)
    requires k < SLOTS && k <= n
    ensures k == n % SLOTS ==> Last(n + 1, k) == n
    ensures k != n % SLOTS ==> k < n && Last(n + 1, k) == Last(n, k)
  {
  }

  lemma Halves(x: nat)
    requires x < WORD * WORD
    ensures (x / WORD) % WORD * WORD + x % WORD == x
  {
  }

  lemma CounterStep(n: nat)
    ensures n % COUNTS % SLOTS == n % SLOTS && (n % COUNTS + 1) % COUNTS == (n + 1) % COUNTS
  {
    var q, r := n / COUNTS, n % COUNTS;
    ModUnique(n, 2 * q + r / SLOTS, r % SLOTS, SLOTS);
    if r + 1 == COUNTS {
      ModUnique(n + 1, q + 1, 0, COUNTS);
    } else {
      ModUnique(n + 1, q, r + 1, COUNTS);
    }
  }

  lemma LatchKeeps(ram: Ram, table: seq<Entry>, e: Entry, isBase: bool)
    requires Loaded(ram, table)
    ensures Loaded(Latch(ram, e, isBase), (if isBase then [] else table) + [e])
  {
    var n := |table|;
    if !isBase {
      CounterStep(n);
      var u := Latch(ram, e, false);
      forall k | 0 <= k < SLOTS && k < n + 1 ensures u.slots[k] == (table + [e])[Last(n + 1, k)].paddr {
        LastStep(n, k);
      }
    }
  }

  /** The AXI-Lite registers of the card, its table, and the entries written since the base. */
  class Card {
    const lite: array<nat>
    const slots: array<nat>
    var basePage: nat
    var counter: nat
    ghost var table: seq<Entry>

    ghost function View(): Ram
      reads this, slots
    {
      Ram(slots[..], basePage, counter)
    }

    ghost predicate Ready()
      reads this, slots
    {
      lite.Length == 16 && lite != slots && Loaded(View(), table)
    }

    /** Between entries the register that triggers a write is low, so that it can rise. */
    ghost predicate Valid()
      reads this, slots, lite
    {
      Ready() && lite[13] == 0
    }

    /** The card after reset; the slots hold anything. */
    constructor (ram: array<nat>)
      requires ram.Length == SLOTS
      ensures Valid() && fresh(lite) && slots == ram && table == []
    {
      lite := new nat[16](_ => 0);
      slots, basePage, counter := ram, 0, 0;
      table := [];
    }

    /** Six register writes load one entry; the fifth tells the card that it is the base. */
    method WriteEntry(vaddr: nat, paddr: nat, first: bool)
      requires Valid() && vaddr < WORD * WORD && paddr < WORD * WORD
      modifies lite, slots, this
      ensures Valid() && table == (if first then [] else old(table)) + [Entry(vaddr, paddr)]
      ensures basePage == if first then vaddr / PAGE else old(basePage)
    {
      hide Loaded;
      lite[8] := vaddr % WORD;
      lite[9] := (vaddr / WORD) % WORD;
      lite[10] := paddr % WORD;
      lite[11] := (paddr / WORD) % WORD;
      lite[12] := if first then 1 else 0;
      lite[13] := 1;
      Halves(vaddr);
      Halves(paddr);
      Load();
      lite[13] := 0;
    }

    /** The card latches the entry when register 13 rises. */
    method Load()
      requires Ready() && lite[13] == 1
      modifies slots, this
      ensures Ready()
      ensures var e, isBase := Entry(lite[9] * WORD + lite[8], lite[11] * WORD + lite[10]), lite[12] % 2 == 1;
              && View() == Latch(old(View()), e, isBase)
              && table == (if isBase then [] else old(table)) + [e]
    {
      ghost var ram, t := View(), table;
      var vaddr, paddr, isBase := lite[9] * WORD + lite[8], lite[11] * WORD + lite[10], lite[12] % 2 == 1;
      LatchKeeps(ram, t, Entry(vaddr, paddr), isBase);
      assert slots.Length == |ram.slots| == SLOTS;
      hide Loaded;
      if isBase {
        slots[0] := paddr;
        basePage, counter := vaddr / PAGE, 1;
        table := [Entry(vaddr, paddr)];
      } else {
        slots[counter % SLOTS] := paddr;
        counter := (counter + 1) % COUNTS;
        table := t + [Entry(vaddr, paddr)];
      }
      assert View() == Latch(ram, Entry(vaddr, paddr), isBase);
    }

    /** The loops over the eight huge-page files. */
    method MapHost(base: nat, phys: seq<seq<nat>>)
      requires Valid() && |phys| == 8 && forall f :: 0 <= f < 8 ==> |phys[f]| == 1024
      requires base + 16 * GB < WORD * WORD && forall f, i :: 0 <= f < 8 && 0 <= i < 1024 ==> phys[f][i] < WORD * WORD
      modifies lite, slots, this
      ensures Valid() && |table| == 8192 && basePage == base / PAGE
      ensures forall k :: 0 <= k < 8192 ==> table[k].vaddr == VPage(base, k)
      ensures forall f, i :: 0 <= f < 8 && 0 <= i < 1024 ==> HostPage(table, base, phys, f, i)
    {
      hide Loaded;
      var f := 0;
      while f < 8
        invariant Valid() && (f > 0 ==> basePage == base / PAGE)
        invariant 0 <= f <= 8 && (f > 0 ==> |table| == 1024 * f)
        invariant f > 0 ==> forall k :: 0 <= k < |table| ==> table[k].vaddr == VPage(base, k)
        invariant f > 0 ==> forall g, i :: 0 <= g < f && 0 <= i < 1024 ==> HostPage(table, base, phys, g, i)
      {
        ghost var t := table;
        MapFile(base, phys, f);
        forall g, i | 0 <= g < f && 0 <= i < 1024 ensures HostPage(table, base, phys, g, i) {
          assert HostPage(t, base, phys, g, i);
        }
        f := f + 1;
      }
    }

    method MapFile(base: nat, phys: seq<seq<nat>>, f: nat)
      requires Valid() && f < |phys| == 8 && forall f :: 0 <= f < 8 ==> |phys[f]| == 1024
      requires base + 16 * GB < WORD * WORD && forall i :: 0 <= i < 1024 ==> phys[f][i] < WORD * WORD
      requires f > 0 ==> |table| == 1024 * f
      modifies lite, slots, this
      ensures Valid() && basePage == (if f == 0 then base / PAGE else old(basePage))
      ensures |table| == 1024 * (f + 1) && (f > 0 ==> old(table) <= table)
      ensures forall k :: 1024 * f <= k < |table| ==> table[k].vaddr == VPage(base, k)
      ensures forall i :: 0 <= i < 1024 ==> HostPage(table, base, phys, f, i)
    {
      hide Loaded;
      ghost var before := if f == 0 then [] else table;
      var file := base + f * (2 * GB);
      var i := 0;
      while i < 1024
        invariant 0 <= i <= 1024 && Valid()
        invariant basePage == if f == 0 && i > 0 then base / PAGE else old(basePage)
        invariant i > 0 || f > 0 ==> |table| == 1024 * f + i && before <= table
        invariant i > 0 || f > 0 ==> forall k :: 1024 * f <= k < |table| ==> table[k].vaddr == VPage(base, k)
        invariant i > 0 || f > 0 ==> forall m :: 0 <= m < i ==> HostPage(table, base, phys, f, m)
      {
        ghost var t := table;
        WriteEntry(file + i * PAGE, phys[f][i], f == 0 && i == 0);
        forall m | 0 <= m < i ensures HostPage(table, base, phys, f, m) {
          assert HostPage(t, base, phys, f, m);
        }
        i := i + 1;
      }
    }

    /** The 512 pages of one peer window. */
    method MapPeer(start: nat, d: Device, ghost base: nat, ghost peers: seq<Device>, ghost j: nat) returns (vaddr: nat)
      requires Valid() && j < |peers| && peers[j] == d && |table| == 8192 + 512 * j
      requires start == WindowBase(base, j)
      requires WindowBase(base, j + 1) < WORD * WORD && d.bar + GB < WORD * WORD
      modifies lite, slots, this
      ensures Valid() && basePage == old(basePage) && vaddr == WindowBase(base, j + 1)
      ensures |table| == 8192 + 512 * (j + 1) && old(table) <= table
      ensures forall k :: 8192 + 512 * j <= k < |table| ==> table[k].vaddr == VPage(base, k)
      ensures forall i :: 0 <= i < 512 ==> PeerPage(table, base, peers, j, i)
    {
      hide Loaded;
      ghost var before := table;
      vaddr := start;
      var paddr := d.bar;
      var i := 0;
      while i < 512
        invariant Valid() && basePage == old(basePage)
        invariant 0 <= i <= 512 && |table| == 8192 + 512 * j + i && before <= table
        invariant vaddr == VPage(base, 8192 + 512 * j + i) && paddr == peers[j].bar + i * PAGE
        invariant forall k :: 8192 + 512 * j <= k < |table| ==> table[k].vaddr == VPage(base, k)
        invariant forall m :: 0 <= m < i ==> PeerPage(table, base, peers, j, m)
      {
        ghost var t := table;
        WriteEntry(vaddr, paddr, false);
        forall m | 0 <= m < i ensures PeerPage(table, base, peers, j, m) {
          assert PeerPage(t, base, peers, j, m);
        }
        vaddr := vaddr + PAGE;
        paddr := paddr + PAGE;
        i := i + 1;
      }
    }
  }

  /** A table complete for some peers stays so, with one more peer, when that window is added. */
  lemma CompleteExtend(t: seq<Entry>, u: seq<Entry>, base: nat, phys: seq<seq<nat>>, peers: seq<Device>, d: Device)
    requires Complete(t, base, phys, peers) && t <= u && |u| == |t| + 512
    requires forall k :: |t| <= k < |u| ==> u[k].vaddr == VPage(base, k)
    requires forall i :: 0 <= i < 512 ==> PeerPage(u, base, peers + [d], |peers|, i)
    ensures Complete(u, base, phys, peers + [d])
  {
    forall f, i | 0 <= f < 8 && 0 <= i < 1024 ensures HostPage(u, base, phys, f, i) {
      assert HostPage(t, base, phys, f, i);
    }
    forall j, i | 0 <= j < |peers + [d]| && 0 <= i < 512 ensures PeerPage(u, base, peers + [d], j, i) {
      if j < |peers| { assert PeerPage(t, base, peers, j, i); }
    }
  }

  /** `pci_paddr_tran`, filled by `init_tlb` for the pairs (peer, own bus). */
  class Translator {
    var tran: map<(nat, nat), int>

    constructor ()
      ensures tran == map[]
    {
      tran := map[];
    }

    /** One more window at the end of the table. */
    method AddWindow(card: Card, pciVaddr: nat, d: Device, ghost base: nat, ghost peers: seq<Device>,
                     ghost phys: seq<seq<nat>>) returns (next: nat)
      requires card.Valid() && Complete(card.table, base, phys, peers)
      requires pciVaddr == WindowBase(base, |peers|) && WindowBase(base, |peers| + 1) < WORD * WORD
      requires d.bar + GB < WORD * WORD
      modifies card, card.lite, card.slots
      ensures card.Valid() && card.basePage == old(card.basePage)
      ensures Complete(card.table, base, phys, peers + [d]) && next == WindowBase(base, |peers| + 1)
    {
      hide Complete, PeerPage, VPage, WindowBase;
      ghost var before := card.table;
      CompleteSize(before, base, phys, peers);
      next := card.MapPeer(pciVaddr, d, base, peers + [d], |peers|);
      CompleteExtend(before, card.table, base, phys, peers, d);
    }

    /** The loop over `device_list` in `init_tlb`. */
    method MapPeers(card: Card, base: nat, bus: nat, devs: seq<Device>, ghost phys: seq<seq<nat>>)
      requires card.Valid() && |card.table| == 8192
      requires WindowBase(base, |devs|) < WORD * WORD && forall d :: d in devs ==> d.bar + GB < WORD * WORD
      requires forall i, j :: 0 <= i < j < |devs| ==> devs[i].bus < devs[j].bus
      requires forall k :: 0 <= k < 8192 ==> card.table[k].vaddr == VPage(base, k)
      requires |phys| == 8 && (forall f :: 0 <= f < 8 ==> |phys[f]| == 1024)
      requires forall f, i :: 0 <= f < 8 && 0 <= i < 1024 ==> HostPage(card.table, base, phys, f, i)
      modifies this, card, card.lite, card.slots
      ensures card.Valid() && card.basePage == old(card.basePage)
      ensures Complete(card.table, base, phys, Peers(devs, bus))
      ensures Recorded(tran, base, bus, Peers(devs, bus))
      ensures forall key :: key in old(tran) && key.1 != bus ==> key in tran && tran[key] == old(tran[key])
    {
      hide Complete, HostPage, PeerPage, VPage, Peers, Recorded, WindowBase, Loaded;
      CompleteStart(card.table, base, phys);
      PeersStep(devs, bus, 0);
      NoneRecorded(tran, base, bus);
      var it, pciVaddr := 0, base + 16 * GB;
      ghost var j := 0;
      WindowMono(base, 0, 0);
      while it < |devs|
        invariant 0 <= it <= |devs| && j == |Peers(devs[..it], bus)| <= it && pciVaddr == WindowBase(base, j)
        invariant card.Valid() && card.basePage == old(card.basePage)
        invariant Complete(card.table, base, phys, Peers(devs[..it], bus))
        invariant Recorded(tran, base, bus, Peers(devs[..it], bus))
        invariant forall key :: key in old(tran) && key.1 != bus ==> key in tran && tran[key] == old(tran[key])
      {
        var d := devs[it];
        ghost var peers := Peers(devs[..it], bus);
        PeersStep(devs, bus, it);
        if bus != d.bus {
          PeersBelow(devs, bus, it, it);
          RecordMore(tran, base, bus, peers, d);
          WindowMono(base, j + 1, |devs|);
          tran := tran[(d.bus, bus) := pciVaddr - d.bridge];
          pciVaddr := AddWindow(card, pciVaddr, d, base, peers, phys);
          j := j + 1;
        }
        it := it + 1;
      }
      assert devs[..it] == devs;
    }

    /** `init_tlb`: the table of card `bus` maps the region and a window for every other card,
        and the offset noted for each of these leads into its window. */
    method InitTlb(card: Card, base: nat, bus: nat, devs: seq<Device>, phys: seq<seq<nat>>)
      requires card.Valid() && Mappable(base, devs, phys)
      modifies this, card, card.lite, card.slots
      ensures card.Valid() && Written(card.View(), card.table, base, phys, Peers(devs, bus))
      ensures Recorded(tran, base, bus, Peers(devs, bus))
      ensures forall key :: key in old(tran) && key.1 != bus ==> key in tran && tran[key] == old(tran[key])
    {
      hide Complete, HostPage, PeerPage, VPage, Peers, Recorded, WindowBase, Loaded;
      WindowMono(base, 0, |devs|);
      card.MapHost(base, phys);
      MapPeers(card, base, bus, devs, phys);
      PeersListed(devs, bus);
      WindowMono(base, |Peers(devs, bus)|, |devs|);
    }
  }

  /** The card as `init_tlb` leaves it. */
  ghost predicate Written(ram: Ram, table: seq<Entry>, base: nat, phys: seq<seq<nat>>, peers: seq<Device>) {
    && Loaded(ram, table) && Complete(table, base, phys, peers)
    && base % PAGE == 0 && ram.basePage == base / PAGE && WindowBase(base, |peers|) < WORD * WORD
    && (forall f, i :: 0 <= f < 8 && 0 <= i < 1024 ==> phys[f][i] + PAGE <= WORD * WORD)
    && (forall j :: 0 <= j < |peers| ==> peers[j].bar + GB < WORD * WORD)
  }

  /** What `init_tlb` can rely on: eight files of 1024 huge pages, mapped one behind the other,
      addresses of 64 bits, and a device list ordered by bus number. */
  ghost predicate Mappable(base: nat, devs: seq<Device>, phys: seq<seq<nat>>) {
    && |phys| == 8 && (forall f :: 0 <= f < 8 ==> |phys[f]| == 1024)
    && base % PAGE == 0 && (forall f, i :: 0 <= f < 8 && 0 <= i < 1024 ==> phys[f][i] + PAGE <= WORD * WORD)
    && WindowBase(base, |devs|) < WORD * WORD && (forall d :: d in devs ==> d.bar + GB < WORD * WORD)
    && (forall i, j :: 0 <= i < j < |devs| ==> devs[i].bus < devs[j].bus)
  }

  /** The address that a card of bus `bus` must use for bridge address `baddr` of a peer; a pair
      never initialised counts as offset zero. */
  function Translation(tran: map<(nat, nat), int>, peer: nat, bus: nat, baddr: int): int {
    baddr + (if (peer, bus) in tran then tran[(peer, bus)] else 0)
  }

  /** The offset noted for each peer leads from its bridge address to its window. */
  ghost predicate Recorded(tran: map<(nat, nat), int>, base: nat, bus: nat, peers: seq<Device>) {
    forall j :: 0 <= j < |peers| ==>
      (peers[j].bus, bus) in tran && tran[(peers[j].bus, bus)] == WindowBase(base, j) - peers[j].bridge
  }

  lemma NoneRecorded(tran: map<(nat, nat), int>, base: nat, bus: nat)
    ensures Recorded(tran, base, bus, [])
  {
  }

  lemma RecordMore(tran: map<(nat, nat), int>, base: nat, bus: nat, peers: seq<Device>, d: Device)
    requires Recorded(tran, base, bus, peers) && forall m :: 0 <= m < |peers| ==> peers[m].bus < d.bus
    ensures Recorded(tran[(d.bus, bus) := WindowBase(base, |peers|) - d.bridge], base, bus, peers + [d])
  {
  }

  lemma WindowMono(base: nat, i: nat, j: nat)
    requires i <= j
    ensures WindowBase(base, 0) == base + 16 * GB && WindowBase(base, i) <= WindowBase(base, j)
  {
  }

  /** Devices are visited in the order of their bus numbers. */
  lemma {:induction false} PeersBelow(devs: seq<Device>, bus: nat, n: nat, it: nat)
    requires n <= it < |devs| && forall i, j :: 0 <= i < j < |devs| ==> devs[i].bus < devs[j].bus
    ensures forall m :: 0 <= m < |Peers(devs[..n], bus)| ==> Peers(devs[..n], bus)[m].bus < devs[it].bus
    decreases n
  {
    hide Peers;
    PeersStep(devs, bus, 0);
    if n > 0 {
      PeersStep(devs, bus, n - 1);
      PeersBelow(devs, bus, n - 1, it);
      assert devs[n - 1].bus < devs[it].bus;
    }
  }

  lemma CompleteStart(table: seq<Entry>, base: nat, phys: seq<seq<nat>>)
    requires |phys| == 8 && (forall f :: 0 <= f < 8 ==> |phys[f]| == 1024) && |table| == 8192
    requires forall k :: 0 <= k < 8192 ==> table[k].vaddr == VPage(base, k)
    requires forall f, i :: 0 <= f < 8 && 0 <= i < 1024 ==> HostPage(table, base, phys, f, i)
    ensures Complete(table, base, phys, [])
  {
  }

  lemma CompleteSize(table: seq<Entry>, base: nat, phys: seq<seq<nat>>, peers: seq<Device>)
    requires Complete(table, base, phys, peers)
    ensures |table| == 8192 + 512 * |peers|
  {
  }
}
