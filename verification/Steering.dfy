/**
 The SK_REUSEPORT steering program: routes a UDP datagram to an instance slot by
 the server ID inside its QUIC-LB connection ID.

 The connection ID layout is that of sections 3.1, 5.2 and 5.3 of
 draft-ietf-quic-load-balancers-21; the packet headers are those of sections 17.2
 and 17.3 of RFC 9000. The program never sees the layout on the wire: all of it
 comes from the configuration, and every theorem is for every configuration.
 */
module Steering {
  import opened Results
  import opened Arithmetic
  import opened Bytes
  import opened Hashing
  import opened Sequences
  import opened Tally

  /** Counters are 64 bits wide. */
  const WIDTH := 0x1_0000_0000_0000_0000

  /** Build-time constants of the program. */
  datatype Config = Config(serverIdLen: nat, nonceLen: nat, rotation: nat, maxInstances: nat)

  /** What the preprocessor checks, and a rotation that fits its three bits. */
  predicate Legal(c: Config) {
    && 1 <= c.serverIdLen <= 8
    && c.nonceLen >= 4
    && c.serverIdLen + c.nonceLen <= 19
    && c.rotation < 8
    && c.maxInstances > 0
  }

  /** The shipped constants are legal, and so are those at the limits. */
  lemma LegalExamples()
    ensures Legal(Config(2, 8, 0, 8)) && Legal(Config(1, 4, 0, 1)) && Legal(Config(8, 11, 7, 1))
    ensures Legal(Config(1, 18, 0, 1)) && !Legal(Config(0, 8, 0, 8)) && !Legal(Config(9, 4, 0, 8))
    ensures !Legal(Config(2, 3, 0, 8)) && !Legal(Config(8, 12, 0, 8)) && !Legal(Config(2, 8, 8, 8))
  {
  }

  function CidLen(c: Config): (n: nat) { 1 + c.serverIdLen + c.nonceLen }

  /** The maps an operator fills: server ID key to slot, and the occupied slots. */
  datatype Tables = Tables(slotByServerId: map<seq<byte>, nat>, occupied: set<nat>)

  /** A datagram: the kernel's view of it, starting at the UDP header, and where it came from. */
  datatype Packet = Packet(protocol: nat, source: (nat, nat), destination: (nat, nat), bytes: seq<byte>)

  datatype Verdict = Steered(slot: nat, isLong: bool) | Fallback

  datatype Action = SkPass(selected: Option<nat>) | SkDrop

  function ActionOf(v: Verdict): (a: Action) {
    match v
    case Steered(slot, _) => SkPass(Some(slot))
    case Fallback => SkPass(None)
  }

  // ---------------------------------------------------------------- specification

  /** `bpf_sk_select_reuseport` finds a socket. */
  predicate Selects(c: Config, t: Tables, slot: nat) { slot < c.maxInstances && slot in t.occupied }

  /** The fixed-width map key of a server ID. */
  function KeyOf(serverId: seq<byte>): (k: seq<byte>)
    requires |serverId| <= 8
    ensures |k| == 8 && serverId <= k && forall i :: |serverId| <= i < 8 ==> k[i] == 0
  {
    serverId + Zeros(8 - |serverId|)
  }

  function PlaceSlot(c: Config, dcid: seq<byte>): (slot: nat)
    requires c.maxInstances > 0
    ensures slot < c.maxInstances
  {
    Fnv(dcid, FNV_BASIS) % c.maxInstances
  }

  /** The slot is the hash modulo the number of instances. */
  lemma PlaceSlotExact(c: Config, dcid: seq<byte>) returns (quotient: nat)
    requires c.maxInstances > 0
    ensures Fnv(dcid, FNV_BASIS) == quotient * c.maxInstances + PlaceSlot(c, dcid)
  {
    quotient := Fnv(dcid, FNV_BASIS) / c.maxInstances;
    Division(Fnv(dcid, FNV_BASIS), c.maxInstances);
  }

  function Place(c: Config, t: Tables, bytes: seq<byte>, dcidLen: nat): (v: Verdict)
    requires c.maxInstances > 0
  {
    if dcidLen < 8 || |bytes| < 22 then Fallback
    else
      var slot := PlaceSlot(c, bytes[14..22]);
      if Selects(c, t, slot) then Steered(slot, true) else Fallback
  }

  function RouteByCid(c: Config, t: Tables, bytes: seq<byte>, offset: nat, isLong: bool): (v: Verdict)
    requires c.serverIdLen <= 8
  {
    if |bytes| < offset + 1 + c.serverIdLen then Fallback
    else if bytes[offset] / 32 != c.rotation then Fallback
    else
      var key := KeyOf(bytes[offset + 1..offset + 1 + c.serverIdLen]);
      if key !in t.slotByServerId then Fallback
      else if !Selects(c, t, t.slotByServerId[key]) then Fallback
      else Steered(t.slotByServerId[key], isLong)
  }

  predicate IsLong(bytes: seq<byte>)
    requires |bytes| >= 14
  {
    bytes[8] >= 0x80
  }

  /** A version 1 long header that is not a Retry. */
  predicate Steerable(bytes: seq<byte>)
    requires |bytes| >= 14
  {
    bytes[9..13] == [0, 0, 0, 1] && bytes[8] / 16 % 4 != 3
  }

  function Route(c: Config, t: Tables, p: Packet): (v: Verdict)
    requires Legal(c)
  {
    if p.protocol != 17 || |p.bytes| < 14 then Fallback
    else if !IsLong(p.bytes) then RouteByCid(c, t, p.bytes, 9, false)
    else if !Steerable(p.bytes) then Fallback
    else if p.bytes[13] != CidLen(c) then Place(c, t, p.bytes, p.bytes[13])
    else RouteByCid(c, t, p.bytes, 14, true)
  }

  // ---------------------------------------------------------------- minting

  /** A connection ID: rotation and five random bits, server ID, nonce. */
  function Mint(c: Config, serverId: seq<byte>, nonce: seq<byte>, random: nat): (cid: seq<byte>)
    requires Legal(c) && |serverId| == c.serverIdLen && |nonce| == c.nonceLen && random < 32
    ensures |cid| == CidLen(c)
  {
    [c.rotation * 32 + random] + serverId + nonce
  }

  /** Three bits of rotation, five random ones, the server ID, the nonce. */
  lemma MintLayout(c: Config, serverId: seq<byte>, nonce: seq<byte>, random: nat)
    requires Legal(c) && |serverId| == c.serverIdLen && |nonce| == c.nonceLen && random < 32
    ensures var cid := Mint(c, serverId, nonce, random);
      && |cid| == 1 + |serverId| + |nonce| && cid[0] / 32 == c.rotation && cid[0] % 32 == random
      && cid[1..1 + |serverId|] == serverId && cid[1 + |serverId|..] == nonce
  {
  }

  function ShortHeader(udp: seq<byte>, first: byte, cid: seq<byte>, rest: seq<byte>): (b: seq<byte>) {
    udp + [first] + cid + rest
  }

  function LongHeader(udp: seq<byte>, first: byte, cid: seq<byte>, rest: seq<byte>): (b: seq<byte>)
    requires |cid| < 256
  {
    udp + [first, 0, 0, 0, 1, |cid|] + cid + rest
  }

  lemma Middle(a: seq<byte>, b: seq<byte>, z: seq<byte>)
    ensures (a + b + z)[|a|..|a| + |b|] == b
  {
  }

  lemma RouteMinted(c: Config, t: Tables, bytes: seq<byte>, offset: nat, isLong: bool,
                    serverId: seq<byte>, nonce: seq<byte>, random: nat)
    requires Legal(c) && |serverId| == c.serverIdLen && |nonce| == c.nonceLen && random < 32
    requires offset + CidLen(c) <= |bytes|
    requires bytes[offset..offset + CidLen(c)] == Mint(c, serverId, nonce, random)
    ensures RouteByCid(c, t, bytes, offset, isLong) ==
      if KeyOf(serverId) in t.slotByServerId && Selects(c, t, t.slotByServerId[KeyOf(serverId)])
      then Steered(t.slotByServerId[KeyOf(serverId)], isLong) else Fallback
  {
    var cid := Mint(c, serverId, nonce, random);
    var n := c.serverIdLen;
    var sent := bytes[offset..offset + CidLen(c)];
    assert bytes[offset] == sent[0] == cid[0];
    SliceOfSlice(bytes, offset, offset + CidLen(c), 1, 1 + n);
    Middle([c.rotation * 32 + random], serverId, nonce);
  }

  /**
   A short-header packet carrying a minted connection ID goes to the slot
   registered for its server ID whenever that slot is occupied, whatever the
   addresses, the nonce, the random bits and the rest of the first octet.
   */
  lemma ShortHeaderReachesOwner(c: Config, t: Tables, p: Packet, udp: seq<byte>, first: byte,
                                serverId: seq<byte>, nonce: seq<byte>, random: nat, rest: seq<byte>)
    requires Legal(c) && |serverId| == c.serverIdLen && |nonce| == c.nonceLen && random < 32
    requires |udp| == 8 && first < 0x80 && p.protocol == 17
    requires p.bytes == ShortHeader(udp, first, Mint(c, serverId, nonce, random), rest)
    ensures Route(c, t, p) ==
      if KeyOf(serverId) in t.slotByServerId && Selects(c, t, t.slotByServerId[KeyOf(serverId)])
      then Steered(t.slotByServerId[KeyOf(serverId)], false) else Fallback
  {
    var cid := Mint(c, serverId, nonce, random);
    assert p.bytes[8] == first;
    assert p.bytes[9..9 + |cid|] == cid;
    RouteMinted(c, t, p.bytes, 9, false, serverId, nonce, random);
  }

  /** The same for a version 1 long header of any type but Retry. */
  lemma LongHeaderReachesOwner(c: Config, t: Tables, p: Packet, udp: seq<byte>, first: byte,
                               serverId: seq<byte>, nonce: seq<byte>, random: nat, rest: seq<byte>)
    requires Legal(c) && |serverId| == c.serverIdLen && |nonce| == c.nonceLen && random < 32
    requires |udp| == 8 && first >= 0x80 && first / 16 % 4 != 3 && p.protocol == 17
    requires p.bytes == LongHeader(udp, first, Mint(c, serverId, nonce, random), rest)
    ensures Route(c, t, p) ==
      if KeyOf(serverId) in t.slotByServerId && Selects(c, t, t.slotByServerId[KeyOf(serverId)])
      then Steered(t.slotByServerId[KeyOf(serverId)], true) else Fallback
  {
    var cid := Mint(c, serverId, nonce, random);
    assert p.bytes[8] == first && p.bytes[13] == |cid|;
    assert p.bytes[9..13] == [0, 0, 0, 1];
    assert p.bytes[14..14 + |cid|] == cid;
    RouteMinted(c, t, p.bytes, 14, true, serverId, nonce, random);
  }

  /** The bytes at `offset` start a connection ID minted for `serverId`. */
  ghost predicate StartsMinted(c: Config, bytes: seq<byte>, offset: nat, serverId: seq<byte>)
    requires Legal(c)
  {
    && |serverId| == c.serverIdLen
    && offset + 1 + c.serverIdLen <= |bytes|
    && exists nonce, random :: |nonce| == c.nonceLen && random < 32 &&
         bytes[offset..offset + 1 + c.serverIdLen] == Mint(c, serverId, nonce, random)[..1 + c.serverIdLen]
  }

  lemma HeadIsMinted(c: Config, bytes: seq<byte>, offset: nat)
    requires Legal(c) && offset + 1 + c.serverIdLen <= |bytes| && bytes[offset] / 32 == c.rotation
    ensures StartsMinted(c, bytes, offset, bytes[offset + 1..offset + 1 + c.serverIdLen])
  {
    var n := c.serverIdLen;
    var id := bytes[offset + 1..offset + 1 + n];
    var nonce := Zeros(c.nonceLen);
    var random := bytes[offset] % 32;
    var cid := Mint(c, id, nonce, random);
    assert bytes[offset..offset + 1 + n] == [bytes[offset]] + id == cid[..1 + n];
  }

  /**
   Conversely, a packet is steered only if it is UDP and, with a long header, of
   version 1 and no Retry; and only to the slot registered for the server ID of a
   minted connection ID at the right place, or, for a long header with any other
   connection ID length, to the slot its first eight octets hash to.
   */
  lemma SteeredHasReason(c: Config, t: Tables, p: Packet)
    requires Legal(c) && Route(c, t, p).Steered?
    ensures var v := Route(c, t, p);
      && v.slot < c.maxInstances && v.slot in t.occupied
      && p.protocol == 17 && |p.bytes| >= 14 && (v.isLong <==> p.bytes[8] >= 0x80)
      && (v.isLong ==> p.bytes[9..13] == [0, 0, 0, 1] && p.bytes[8] / 16 % 4 != 3)
      && (v.isLong && p.bytes[13] != CidLen(c) ==>
            p.bytes[13] >= 8 && |p.bytes| >= 22 && v.slot == PlaceSlot(c, p.bytes[14..22]))
      && (!v.isLong || p.bytes[13] == CidLen(c) ==>
            exists id :: StartsMinted(c, p.bytes, if v.isLong then 14 else 9, id)
                         && KeyOf(id) in t.slotByServerId && t.slotByServerId[KeyOf(id)] == v.slot)
  {
    var v := Route(c, t, p);
    if !v.isLong || p.bytes[13] == CidLen(c) {
      var offset := if v.isLong then 14 else 9;
      assert RouteByCid(c, t, p.bytes, offset, v.isLong) == v;
      HeadIsMinted(c, p.bytes, offset);
    }
  }

  /** The octets at `at` begin with the rotation and a server ID registered for `slot`. */
  ghost predicate Registers(c: Config, t: Tables, bytes: seq<byte>, at: nat, slot: nat) {
    && at + 1 + c.serverIdLen <= |bytes| && c.serverIdLen <= 8
    && bytes[at] / 32 == c.rotation
    && var key := bytes[at + 1..at + 1 + c.serverIdLen] + Zeros(8 - c.serverIdLen);
       key in t.slotByServerId && t.slotByServerId[key] == slot
  }

  /** Which packets are steered where, octet by octet. */
  lemma RouteExactly(c: Config, t: Tables, p: Packet, slot: nat, isLong: bool)
    requires Legal(c)
    ensures Route(c, t, p) == Steered(slot, isLong) <==>
      && slot < c.maxInstances && slot in t.occupied
      && p.protocol == 17 && |p.bytes| >= 14 && (isLong <==> p.bytes[8] >= 0x80)
      && if !isLong then Registers(c, t, p.bytes, 9, slot)
         else
           && p.bytes[9..13] == [0, 0, 0, 1] && p.bytes[8] / 16 % 4 != 3
           && if p.bytes[13] == 1 + c.serverIdLen + c.nonceLen then Registers(c, t, p.bytes, 14, slot)
              else p.bytes[13] >= 8 && |p.bytes| >= 22 && slot == PlaceSlot(c, p.bytes[14..22])
  {
  }

  /** Registered IDs of one length never share a map key. */
  lemma KeysDistinct(a: seq<byte>, b: seq<byte>)
    requires |a| == |b| <= 8 && KeyOf(a) == KeyOf(b)
    ensures a == b
  {
    assert a == KeyOf(a)[..|a|] && b == KeyOf(b)[..|b|];
  }

  /**
   First-flight placement depends only on the first eight octets of the
   client's connection ID, so retransmissions stay on one instance across an
   address change.
   */
  lemma PlacementStable(c: Config, t: Tables, p: Packet, q: Packet)
    requires Legal(c) && p.protocol == q.protocol == 17 && |p.bytes| >= 22 && |q.bytes| >= 22
    requires IsLong(p.bytes) && Steerable(p.bytes) && IsLong(q.bytes) && Steerable(q.bytes)
    requires 8 <= p.bytes[13] != CidLen(c) && 8 <= q.bytes[13] != CidLen(c)
    requires p.bytes[14..22] == q.bytes[14..22]
    ensures Route(c, t, p) == Route(c, t, q)
    ensures Route(c, t, p).Fallback? <==> PlaceSlot(c, p.bytes[14..22]) !in t.occupied
  {
  }

  /**
   A long header of version 1 that is no Retry, an Initial for one, whose
   connection ID has another length than the minted ones, goes where its first
   eight octets hash to. It falls back exactly when that slot is empty, or the
   connection ID is shorter than any a client may open with.
   */
  lemma ForeignInitialPlaced(
    c: Config, t: Tables, p: Packet, udp: seq<byte>, first: byte, dcid: seq<byte>, rest: seq<byte>)
    requires Legal(c) && |udp| == 8 && first >= 0x80 && first / 16 % 4 != 3 && p.protocol == 17
    requires CidLen(c) != |dcid| < 256 && p.bytes == LongHeader(udp, first, dcid, rest)
    ensures Route(c, t, p) ==
      if |dcid| >= 8 && PlaceSlot(c, dcid[..8]) in t.occupied then Steered(PlaceSlot(c, dcid[..8]), true) else Fallback
  {
    assert p.bytes[8] == first && p.bytes[13] == |dcid|;
    assert p.bytes[9..13] == [0, 0, 0, 1];
    if |dcid| >= 8 { assert p.bytes[14..22] == dcid[..8]; }
  }

  // ---------------------------------------------------------------- counters

  /** One packet processed on one CPU, with the maps as they were at that moment. */
  datatype Event = Event(cpu: nat, tables: Tables, packet: Packet)

  datatype Machine = Machine(config: Config, cpus: nat)

  predicate LegalMachine(m: Machine) { Legal(m.config) }

  ghost predicate LegalRun(m: Machine, run: seq<Event>) {
    forall i :: 0 <= i < |run| ==> run[i].cpu < m.cpus
  }

  /** One cell per CPU and slot. */
  function SlotCells(m: Machine): (n: nat) { m.cpus * m.config.maxInstances }

  function SlotCell(m: Machine, cpu: nat, slot: nat): (i: nat) { cpu * m.config.maxInstances + slot }

  lemma CellInRange(m: Machine, cpu: nat, slot: nat)
    requires cpu < m.cpus && slot < m.config.maxInstances
    ensures SlotCell(m, cpu, slot) < SlotCells(m)
  {
    var w := m.config.maxInstances;
    assert (cpu + 1) * w <= m.cpus * w;
    assert (cpu + 1) * w == cpu * w + w;
  }

  /** The CPU whose steered (or fallback) counter an event bumps, or -1. */
  function SteeredKey(m: Machine): (Event -> int)
    requires LegalMachine(m)
  {
    (e: Event) => if Route(m.config, e.tables, e.packet).Steered? then e.cpu else -1
  }

  function FallbackKey(m: Machine): (Event -> int)
    requires LegalMachine(m)
  {
    (e: Event) => if Route(m.config, e.tables, e.packet).Fallback? then e.cpu else -1
  }

  /** The per-CPU slot cell an event bumps in the short (or long) header bank, or -1. */
  function SlotKey(m: Machine, isLong: bool): (Event -> int)
    requires LegalMachine(m)
  {
    (e: Event) =>
      var v := Route(m.config, e.tables, e.packet);
      if v.Steered? && v.isLong == isLong then SlotCell(m, e.cpu, v.slot) else -1
  }

  datatype Counters = Counters(steered: seq<nat>, fallback: seq<nat>, shortHeader: seq<nat>, longHeader: seq<nat>)

  /** The four counter banks after a run, 64 bits each. */
  function After(m: Machine, run: seq<Event>): (k: Counters)
    requires LegalMachine(m)
  {
    Counters(
      Bank(run, SteeredKey(m), m.cpus, WIDTH),
      Bank(run, FallbackKey(m), m.cpus, WIDTH),
      Bank(run, SlotKey(m, false), SlotCells(m), WIDTH),
      Bank(run, SlotKey(m, true), SlotCells(m), WIDTH))
  }

  lemma {:induction false} EveryPacketCounted(m: Machine, run: seq<Event>)
    requires LegalMachine(m) && LegalRun(m, run)
    ensures Hits(run, SteeredKey(m), 0, m.cpus) + Hits(run, FallbackKey(m), 0, m.cpus) == |run|
  {
    if run != [] { EveryPacketCounted(m, run[..|run| - 1]); }
  }

  lemma {:induction false} EverySteeredPacketSlotted(m: Machine, run: seq<Event>)
    requires LegalMachine(m) && LegalRun(m, run)
    ensures var n := SlotCells(m);
      Hits(run, SlotKey(m, false), 0, n) + Hits(run, SlotKey(m, true), 0, n) == Hits(run, SteeredKey(m), 0, m.cpus)
  {
    if run != [] {
      EverySteeredPacketSlotted(m, run[..|run| - 1]);
      SlotOfEvent(m, run[|run| - 1]);
    }
  }

  lemma SlotOfEvent(m: Machine, e: Event)
    requires LegalMachine(m) && e.cpu < m.cpus
    ensures var n := SlotCells(m);
      (0 <= SlotKey(m, false)(e) < n || 0 <= SlotKey(m, true)(e) < n) <==> 0 <= SteeredKey(m)(e) < m.cpus
    ensures SlotKey(m, false)(e) == -1 || SlotKey(m, true)(e) == -1
  {
    var v := Route(m.config, e.tables, e.packet);
    if v.Steered? {
      SteeredHasReason(m.config, e.tables, e.packet);
      CellInRange(m, e.cpu, v.slot);
    }
  }

  ghost function SteeredOn(m: Machine, cpu: nat): (p: Event -> bool)
    requires LegalMachine(m)
  {
    (e: Event) => e.cpu == cpu && Route(m.config, e.tables, e.packet).Steered?
  }

  ghost function FallenBackOn(m: Machine, cpu: nat): (p: Event -> bool)
    requires LegalMachine(m)
  {
    (e: Event) => e.cpu == cpu && Route(m.config, e.tables, e.packet).Fallback?
  }

  ghost function SlottedOn(m: Machine, cpu: nat, slot: nat, isLong: bool): (p: Event -> bool)
    requires LegalMachine(m)
  {
    (e: Event) => e.cpu == cpu && Route(m.config, e.tables, e.packet) == Steered(slot, isLong)
  }

  /** In a run of fewer than 2^64 packets, each CPU's totals are the packets it steered and those it did not. */
  lemma TotalsMean(m: Machine, run: seq<Event>, cpu: nat)
    requires LegalMachine(m) && cpu < m.cpus && |run| < 0x1_0000_0000_0000_0000
    ensures After(m, run).steered[cpu] == NumberOf(run, SteeredOn(m, cpu))
    ensures After(m, run).fallback[cpu] == NumberOf(run, FallenBackOn(m, cpu))
  {
    CounterMeans(run, SteeredKey(m), m.cpus, cpu, SteeredOn(m, cpu));
    CounterMeans(run, FallbackKey(m), m.cpus, cpu, FallenBackOn(m, cpu));
  }

  lemma CounterMeans<E>(run: seq<E>, key: E -> int, n: nat, i: nat, p: E -> bool)
    requires i < n && |run| < WIDTH && forall e :: e in run ==> (key(e) == i <==> p(e))
    ensures Bank(run, key, n, WIDTH)[i] == NumberOf(run, p)
  {
    BankAt(run, key, n, WIDTH, i);
    WrappedBelow(HitsAt(run, key, i), WIDTH);
    HitsNumber(run, key, i, i + 1, p);
  }

  /** And its slot counters are the packets it steered to each slot, by header form. */
  lemma SlotsMean(m: Machine, run: seq<Event>, cpu: nat, slot: nat)
    requires LegalMachine(m) && LegalRun(m, run) && |run| < 0x1_0000_0000_0000_0000
    requires cpu < m.cpus && slot < m.config.maxInstances
    ensures SlotCell(m, cpu, slot) < SlotCells(m)
    ensures After(m, run).shortHeader[SlotCell(m, cpu, slot)] == NumberOf(run, SlottedOn(m, cpu, slot, false))
    ensures After(m, run).longHeader[SlotCell(m, cpu, slot)] == NumberOf(run, SlottedOn(m, cpu, slot, true))
  {
    CellInRange(m, cpu, slot);
    var cell := SlotCell(m, cpu, slot);
    forall e, isLong | e in run ensures SlotKey(m, isLong)(e) == cell <==> SlottedOn(m, cpu, slot, isLong)(e) {
      var v := Route(m.config, e.tables, e.packet);
      if v.Steered? {
        SteeredHasReason(m.config, e.tables, e.packet);
        if SlotCell(m, e.cpu, v.slot) == cell { WrittenOnce(m.config.maxInstances, e.cpu, v.slot, cpu, slot); }
      }
    }
    CounterMeans(run, SlotKey(m, false), SlotCells(m), cell, SlottedOn(m, cpu, slot, false));
    CounterMeans(run, SlotKey(m, true), SlotCells(m), cell, SlottedOn(m, cpu, slot, true));
  }

  ghost predicate TotalsIntact(m: Machine, run: seq<Event>)
    requires LegalMachine(m)
  {
    && NoneWrapped(run, SteeredKey(m), m.cpus, WIDTH)
    && NoneWrapped(run, FallbackKey(m), m.cpus, WIDTH)
  }

  ghost predicate SlotsIntact(m: Machine, run: seq<Event>)
    requires LegalMachine(m)
  {
    && NoneWrapped(run, SlotKey(m, false), SlotCells(m), WIDTH)
    && NoneWrapped(run, SlotKey(m, true), SlotCells(m), WIDTH)
  }

  /**
   Summed over the CPUs, steered plus fallback is the number of packets
   processed exactly when no such counter has passed 2^64 - 1.
   */
  lemma PacketsConserved(m: Machine, run: seq<Event>)
    requires LegalMachine(m) && LegalRun(m, run)
    ensures Sum(After(m, run).steered) + Sum(After(m, run).fallback) == |run| <==> TotalsIntact(m, run)
  {
    EveryPacketCounted(m, run);
    TwoBanksSum(run, SteeredKey(m), FallbackKey(m), m.cpus, WIDTH, |run|);
  }

  /** The per-slot counters add up to the steered packets under the same condition on them. */
  lemma SlotsConserved(m: Machine, run: seq<Event>)
    requires LegalMachine(m) && LegalRun(m, run)
    ensures Sum(After(m, run).shortHeader) + Sum(After(m, run).longHeader) == Hits(run, SteeredKey(m), 0, m.cpus)
      <==> SlotsIntact(m, run)
  {
    EverySteeredPacketSlotted(m, run);
    TwoBanksSum(run, SlotKey(m, false), SlotKey(m, true), SlotCells(m), WIDTH, Hits(run, SteeredKey(m), 0, m.cpus));
  }

  /** So in a run of fewer than 2^64 packets they add up to the steered counters. */
  lemma SlotsMatchSteered(m: Machine, run: seq<Event>)
    requires LegalMachine(m) && LegalRun(m, run) && |run| < WIDTH
    ensures Sum(After(m, run).shortHeader) + Sum(After(m, run).longHeader) == Sum(After(m, run).steered)
  {
    SlotsConserved(m, run);
    ShortRunNeverWraps(run, SlotKey(m, false), SlotCells(m), WIDTH);
    ShortRunNeverWraps(run, SlotKey(m, true), SlotCells(m), WIDTH);
    ShortRunNeverWraps(run, SteeredKey(m), m.cpus, WIDTH);
    BankSum(run, SteeredKey(m), m.cpus, WIDTH);
  }

  /** Any packet processed 2^64 times on one CPU breaks conservation. */
  lemma WrapLosesPackets(m: Machine, e: Event)
    requires LegalMachine(m) && e.cpu < m.cpus
    ensures var run := Repeat(WIDTH, e);
      LegalRun(m, run) && Sum(After(m, run).steered) + Sum(After(m, run).fallback) != |run|
  {
    var run := Repeat(WIDTH, e);
    PacketsConserved(m, run);
    var key := if Route(m.config, e.tables, e.packet).Steered? then SteeredKey(m) else FallbackKey(m);
    HitsRepeated(WIDTH, e, key, e.cpu, e.cpu + 1);
    assert !NoneWrapped(run, key, m.cpus, WIDTH) by { assert HitsAt(run, key, e.cpu) == WIDTH; }
  }

  // ---------------------------------------------------------------- the program

  class SteerProgram {
    const machine: Machine
    var counters: Counters
    ghost var run: seq<Event>

    ghost predicate Valid()
      reads this
    {
      LegalMachine(machine) && LegalRun(machine, run) && counters == After(machine, run)
    }

    constructor (m: Machine)
      requires LegalMachine(m)
      ensures Valid() && machine == m && run == []
    {
      machine := m;
      run := [];
      counters := Counters(Repeat(m.cpus, 0), Repeat(m.cpus, 0),
                           Repeat(SlotCells(m), 0), Repeat(SlotCells(m), 0));
    }

    /** `bump`: key 0 counts steered packets, key 1 fallbacks. */
    method Bump(cpu: nat, key: nat)
      requires key < 2
      modifies this`counters
      ensures counters == old(counters).(
        steered := if key == 0 then BumpAt(old(counters.steered), cpu, WIDTH) else old(counters.steered),
        fallback := if key == 1 then BumpAt(old(counters.fallback), cpu, WIDTH) else old(counters.fallback))
    {
      if key == 0 {
        counters := counters.(steered := BumpAt(counters.steered, cpu, WIDTH));
      } else {
        counters := counters.(fallback := BumpAt(counters.fallback, cpu, WIDTH));
      }
    }

    method BumpSlot(cpu: nat, slot: nat, isLong: bool)
      modifies this`counters
      ensures counters == old(counters).(
        shortHeader := if isLong then old(counters.shortHeader)
                       else BumpAt(old(counters.shortHeader), SlotCell(machine, cpu, slot), WIDTH),
        longHeader := if isLong then BumpAt(old(counters.longHeader), SlotCell(machine, cpu, slot), WIDTH)
                      else old(counters.longHeader))
    {
      var cell := SlotCell(machine, cpu, slot);
      if isLong {
        counters := counters.(longHeader := BumpAt(counters.longHeader, cell, WIDTH));
      } else {
        counters := counters.(shortHeader := BumpAt(counters.shortHeader, cell, WIDTH));
      }
    }

    /** The hash loop of `place_by_client_dcid`. */
    method HashDcid(dcid: seq<byte>) returns (hash: Word)
      ensures hash == Fnv(dcid, FNV_BASIS)
    {
      hash := FNV_BASIS;
      assert dcid[0..] == dcid;
      for i := 0 to |dcid|
        invariant Fnv(dcid[i..], hash) == Fnv(dcid, FNV_BASIS)
      {
        var next := FnvStep(hash, dcid[i]);
        FnvNext(dcid, i, hash, next);
        hash := next;
      }
      assert dcid[|dcid|..] == [];
    }

    /** The decision part of the program: which socket, if any. */
    method Decide(tables: Tables, p: Packet) returns (v: Verdict)
      requires Legal(machine.config)
      ensures v == Route(machine.config, tables, p)
    {
      var c := machine.config;
      if p.protocol != 17 { return Fallback; }
      if |p.bytes| < 14 { return Fallback; }
      var first := p.bytes[8];
      var isLong := first >= 0x80;
      var offset := 9;
      if isLong {
        if p.bytes[9..13] != [0, 0, 0, 1] { return Fallback; }
        if first / 16 % 4 == 3 { return Fallback; }
        if p.bytes[13] != CidLen(c) {
          if p.bytes[13] < 8 || |p.bytes| < 22 { return Fallback; }
          var hash := HashDcid(p.bytes[14..22]);
          var slot := hash % c.maxInstances;
          if !Selects(c, tables, slot) { return Fallback; }
          return Steered(slot, true);
        }
        offset := 14;
      }
      if |p.bytes| < offset + 1 + c.serverIdLen { return Fallback; }
      if p.bytes[offset] / 32 != c.rotation { return Fallback; }
      var key := CopyServerId(p.bytes, offset + 1, c.serverIdLen);
      if key !in tables.slotByServerId { return Fallback; }
      var slot := tables.slotByServerId[key];
      if !Selects(c, tables, slot) { return Fallback; }
      return Steered(slot, isLong);
    }

    /** Copies the server ID octets into a zeroed key. */
    method CopyServerId(bytes: seq<byte>, offset: nat, n: nat) returns (key: seq<byte>)
      requires n <= 8 && offset + n <= |bytes|
      ensures key == KeyOf(bytes[offset..offset + n])
    {
      var id := new byte[8](_ => 0);
      for i := 0 to n
        invariant forall k :: 0 <= k < i ==> id[k] == bytes[offset + k]
        invariant forall k :: i <= k < 8 ==> id[k] == 0
      {
        id[i] := bytes[offset + i];
      }
      key := id[..];
      assert key == KeyOf(bytes[offset..offset + n]);
    }

    /** `steer_by_cid`: never a drop, and never a slot out of range. */
    method Steer(cpu: nat, tables: Tables, p: Packet) returns (action: Action)
      requires Valid() && cpu < machine.cpus
      modifies this
      ensures Valid() && run == old(run) + [Event(cpu, tables, p)]
      ensures action == ActionOf(Route(machine.config, tables, p)) && action.SkPass?
      ensures action.selected.Some? ==> Selects(machine.config, tables, action.selected.value)
    {
      var v := Decide(tables, p);
      if v.Steered? { SteeredHasReason(machine.config, tables, p); }
      AfterNext(machine, run, Event(cpu, tables, p), v);
      action := Count(cpu, v);
      run := run + [Event(cpu, tables, p)];
    }

    /** The counters bumped for a verdict, and the answer given. */
    method Count(cpu: nat, v: Verdict) returns (action: Action)
      modifies this`counters
      ensures counters == Counted(machine, old(counters), cpu, v)
      ensures action == ActionOf(v)
    {
      match v {
        case Fallback =>
          Bump(cpu, 1);
          action := SkPass(None);
        case Steered(slot, isLong) =>
          Bump(cpu, 0);
          BumpSlot(cpu, slot, isLong);
          action := SkPass(Some(slot));
      }
    }
  }

  /** The counters after one more packet with the verdict `v`. */
  function Counted(m: Machine, k: Counters, cpu: nat, v: Verdict): (r: Counters) {
    match v
    case Fallback => k.(fallback := BumpAt(k.fallback, cpu, WIDTH))
    case Steered(slot, isLong) =>
      var cell := SlotCell(m, cpu, slot);
      k.(steered := BumpAt(k.steered, cpu, WIDTH),
         shortHeader := if isLong then k.shortHeader else BumpAt(k.shortHeader, cell, WIDTH),
         longHeader := if isLong then BumpAt(k.longHeader, cell, WIDTH) else k.longHeader)
  }

  lemma AfterNext(m: Machine, run: seq<Event>, e: Event, v: Verdict)
    requires LegalMachine(m) && v == Route(m.config, e.tables, e.packet)
    ensures After(m, run + [e]) == Counted(m, After(m, run), e.cpu, v)
  {
    assert (run + [e])[..|run|] == run;
  }
}
