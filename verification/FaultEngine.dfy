/**
 The seeded UDP fault engine: a 32-bit xorshift generator and counters, both
 updated by every packet.

 The engine decides packet by packet, drawing a varying number of random words.
 The theorems are about whole runs: the statistics conserve packets, determine
 how far the generator has moved, and account exactly for the burst window.
 */
module FaultEngine {
  import opened Results
  import opened Bytes
  import opened Arithmetic
  import opened Tally

  // ---------------------------------------------------------------- xorshift32

  /** A 32-bit word as its bits, least significant first. */
  type Word = w: seq<bool> | |w| == 32 witness seq(32, _ => false)

  function Xor(a: Word, b: Word): (r: Word)
    ensures forall i :: 0 <= i < 32 ==> r[i] == (a[i] != b[i])
  {
    seq(32, i requires 0 <= i < 32 => a[i] != b[i])
  }

  /** `x << k`. */
  function Shl(x: Word, k: nat): (r: Word)
    ensures forall i :: 0 <= i < 32 ==> r[i] == (i >= k && x[i - k])
  {
    seq(32, i requires 0 <= i < 32 => i >= k && x[i - k])
  }

  /** `x >>> k`. */
  function Shr(x: Word, k: nat): (r: Word)
    ensures forall i :: 0 <= i < 32 ==> r[i] == (i + k < 32 && x[i + k])
  {
    seq(32, i requires 0 <= i < 32 => i + k < 32 && x[i + k])
  }

  function Zero(): (w: Word) { seq(32, i => false) }

  function Next(x: Word): (y: Word) {
    var a := Xor(x, Shl(x, 13));
    var b := Xor(a, Shr(a, 17));
    Xor(b, Shl(b, 5))
  }

  /** Undoes `x ^ (x << k)` by adding every multiple of the shift back in. */
  function Unshl(y: Word, k: nat): (x: Word)
    requires k > 0
  {
    seq(32, i requires 0 <= i < 32 => Parity(y, i, k))
  }

  /** The parity of the bits i, i - k, i - 2k, ... of a word. */
  function Parity(y: Word, i: nat, k: nat): (p: bool)
    requires i < 32 && k > 0
    decreases i
  {
    if i < k then y[i] else y[i] != Parity(y, i - k, k)
  }

  /** Undoes `Next`, shift by shift. */
  function Previous(y: Word): (x: Word) {
    var b := Unshl(y, 5);
    var a := Xor(b, Shr(b, 17));
    Unshl(a, 13)
  }

  lemma {:induction false} ParityOfShifted(x: Word, i: nat, k: nat)
    requires i < 32 && k > 0
    ensures Parity(Xor(x, Shl(x, k)), i, k) == x[i]
    decreases i
  {
    if i >= k { ParityOfShifted(x, i - k, k); }
  }

  lemma UnshlInverse(x: Word, k: nat)
    requires k > 0
    ensures Unshl(Xor(x, Shl(x, k)), k) == x
    ensures Xor(Unshl(x, k), Shl(Unshl(x, k), k)) == x
  {
    forall i | 0 <= i < 32 ensures Unshl(Xor(x, Shl(x, k)), k)[i] == x[i] {
      ParityOfShifted(x, i, k);
    }
  }

  lemma ShrInverse(x: Word, k: nat)
    requires k >= 16
    ensures Xor(Xor(x, Shr(x, k)), Shr(Xor(x, Shr(x, k)), k)) == x
  {
  }

  /** The step is a bijection on 32-bit words ... */
  lemma NextBijective(x: Word)
    ensures Previous(Next(x)) == x && Next(Previous(x)) == x
  {
    var a := Xor(x, Shl(x, 13));
    UnshlInverse(Xor(a, Shr(a, 17)), 5);
    ShrInverse(a, 17);
    UnshlInverse(x, 13);
    var b := Unshl(x, 5);
    UnshlInverse(Xor(b, Shr(b, 17)), 13);
    ShrInverse(b, 17);
    UnshlInverse(x, 5);
  }

  lemma NextLinear(x: Word, y: Word)
    ensures Next(Xor(x, y)) == Xor(Next(x), Next(y))
  {
    var a, b := Xor(x, Shl(x, 13)), Xor(y, Shl(y, 13));
    XorShifted(x, y, 13);
    assert Xor(Xor(a, b), Shr(Xor(a, b), 17)) == Xor(Xor(a, Shr(a, 17)), Xor(b, Shr(b, 17)));
    XorShifted(Xor(a, Shr(a, 17)), Xor(b, Shr(b, 17)), 5);
  }

  lemma XorShifted(x: Word, y: Word, k: nat)
    ensures Xor(Xor(x, y), Shl(Xor(x, y), k)) == Xor(Xor(x, Shl(x, k)), Xor(y, Shl(y, k)))
  {
  }

  /** Where the step takes the lowest bit and the highest: 1 goes to 270369, 2^31 to 2^31 + 2^19 + 2^14. */
  lemma NextVectors(x: Word)
    ensures (forall i :: 0 <= i < 32 ==> x[i] == (i == 0)) ==>
      forall i :: 0 <= i < 32 ==> Next(x)[i] == (i in {0, 5, 13, 18})
    ensures (forall i :: 0 <= i < 32 ==> x[i] == (i == 31)) ==>
      forall i :: 0 <= i < 32 ==> Next(x)[i] == (i in {14, 19, 31})
  {
    var a := Xor(x, Shl(x, 13));
    var b := Xor(a, Shr(a, 17));
    if forall i :: 0 <= i < 32 ==> x[i] == (i == 0) {
      assert forall i :: 0 <= i < 32 ==> a[i] == (i in {0, 13});
      assert forall i :: 0 <= i < 32 ==> b[i] == (i in {0, 13});
    }
    if forall i :: 0 <= i < 32 ==> x[i] == (i == 31) {
      assert forall i :: 0 <= i < 32 ==> a[i] == (i == 31);
      assert forall i :: 0 <= i < 32 ==> b[i] == (i in {14, 31});
    }
  }

  lemma NextOfZero()
    ensures Next(Zero()) == Zero()
  {
    var a := Xor(Zero(), Shl(Zero(), 13));
    assert a == Zero();
    var b := Xor(a, Shr(a, 17));
    assert b == Zero();
  }

  lemma PreviousOfZero()
    ensures Previous(Zero()) == Zero()
  {
    NextOfZero();
    NextBijective(Zero());
  }

  /** ... that never reaches zero from a non-zero state. */
  lemma NextNonZero(x: Word)
    ensures Next(x) == Zero() ==> x == Zero()
  {
    var y := Next(x);
    assert Previous(y) == x by { NextBijective(x); }
    PreviousOfZero();
  }

  function Bit(n: nat, i: nat): (b: bool) { if i == 0 then n % 2 == 1 else Bit(n / 2, i - 1) }

  function WordOf(n: nat): (w: Word) { seq(32, i requires 0 <= i < 32 => Bit(n, i)) }

  /** The value of bits `i` and up, shifted down. */
  function ValueFrom(w: Word, i: nat): (n: nat)
    requires i <= 32
    decreases 32 - i
  {
    if i == 32 then 0 else (if w[i] then 1 else 0) + 2 * ValueFrom(w, i + 1)
  }

  function Unit(w: Word): (u: real) { ValueFrom(w, 0) as real / 4294967296.0 }

  /** `seed | 0 || 0x6d2b79f5`. */
  function SeedState(seed: int): (w: Word) {
    var word := WordOf(seed % 0x1_0000_0000);
    if word == Zero() then WordOf(0x6d2b_79f5) else word
  }

  // ---------------------------------------------------------------- words as numbers

  /** `n` shifted right by `i` bits. */
  ghost function Shifted(n: nat, i: nat): (r: nat) { if i == 0 then n else Shifted(n / 2, i - 1) }

  lemma {:induction false} ShiftedNext(n: nat, i: nat)
    ensures Shifted(n, i + 1) == Shifted(n, i) / 2
    ensures Bit(n, i) <==> Shifted(n, i) % 2 == 1
  {
    if i > 0 { ShiftedNext(n / 2, i - 1); }
  }

  lemma {:induction false} ShiftedOut(n: nat, i: nat)
    requires n < Pow2(i)
    ensures Shifted(n, i) == 0
  {
    if i > 0 { ShiftedOut(n / 2, i - 1); }
  }

  lemma {:induction false} ValueShifted(w: Word, n: nat, i: nat)
    requires i <= 32 && Shifted(n, 32) == 0 && forall k :: 0 <= k < 32 ==> w[k] == Bit(n, k)
    ensures ValueFrom(w, i) == Shifted(n, i)
    decreases 32 - i
  {
    if i < 32 {
      ValueShifted(w, n, i + 1);
      ShiftedNext(n, i);
    }
  }

  /** A number below 2^32 is the value of its word. */
  lemma ValueOfWord(n: nat)
    requires n < 0x1_0000_0000
    ensures ValueFrom(WordOf(n), 0) == n
  {
    Pow2Values();
    ShiftedOut(n, 32);
    ValueShifted(WordOf(n), n, 0);
  }

  lemma {:induction false} ValueOfZero(w: Word, i: nat)
    requires i <= 32 && forall k :: 0 <= k < 32 ==> !w[k]
    ensures ValueFrom(w, i) == 0
    decreases 32 - i
  {
    if i < 32 { ValueOfZero(w, i + 1); }
  }

  /** The generator starts at the seed modulo 2^32, or at the constant where that is zero. */
  lemma SeedValue(seed: int)
    ensures ValueFrom(SeedState(seed), 0) ==
      if seed % 0x1_0000_0000 == 0 then 0x6d2b_79f5 else seed % 0x1_0000_0000
  {
    var n := seed % 0x1_0000_0000;
    var word := WordOf(n);
    ValueOfWord(n);
    ValueOfWord(0x6d2b_79f5);
    if word == Zero() { ValueOfZero(word, 0); }
    if n == 0 { WordOfZero(); }
  }

  lemma SeedWord(seed: int)
    ensures SeedState(seed) == WordOf(if seed % 0x1_0000_0000 != 0 then seed % 0x1_0000_0000 else 0x6d2b_79f5)
  {
    var n := seed % 0x1_0000_0000;
    ValueOfWord(n);
    if WordOf(n) == Zero() { ValueOfZero(WordOf(n), 0); }
    if n == 0 { WordOfZero(); }
  }

  lemma WordOfZero()
    ensures WordOf(0) == Zero()
  {
    forall i | 0 <= i < 32 ensures !WordOf(0)[i] { BitOfZero(i); }
  }

  lemma {:induction false} BitOfZero(i: nat)
    ensures !Bit(0, i)
  {
    if i > 0 { BitOfZero(i - 1); }
  }

  lemma {:induction false} ValueBound(w: Word, i: nat)
    requires i <= 32
    ensures ValueFrom(w, i) < Pow2(32 - i)
    decreases 32 - i
  {
    if i < 32 { ValueBound(w, i + 1); }
  }

  /** Every word reads as a number in [0, 1), its value over 2^32. */
  lemma UnitRange(w: Word)
    ensures 0.0 <= Unit(w) < 1.0
    ensures Unit(w) * 4294967296.0 == ValueFrom(w, 0) as real
  {
    Pow2Values();
    ValueBound(w, 0);
  }

  /** A generator of pseudo-random words and their reading as numbers in [0, 1). */
  datatype Generator<!W> = Generator(next: W -> W, unit: W -> real)

  function Xorshift(): (g: Generator<Word>) { Generator(Next, Unit) }

  function Iterate<W>(g: Generator<W>, x: W, n: nat): (y: W) {
    if n == 0 then x else g.next(Iterate(g, x, n - 1))
  }

  lemma SeedNonZero(seed: int)
    ensures SeedState(seed) != Zero()
  {
    assert Bit(0x6d2b_79f5, 0);
    assert WordOf(0x6d2b_79f5)[0];
  }

  lemma {:induction false} IterateAvoids<W(!new)>(g: Generator<W>, x: W, n: nat, bad: W)
    requires x != bad && forall w :: g.next(w) == bad ==> w == bad
    ensures Iterate(g, x, n) != bad
  {
    if n > 0 { IterateAvoids(g, x, n - 1, bad); }
  }

  // ---------------------------------------------------------------- the engine on values

  datatype Direction = ClientToServer | ServerToClient

  datatype Burst = Burst(startPacket: nat, packetCount: nat)
  datatype BlackHole = BlackHole(startMs: real, durationMs: real)

  datatype Profile = Profile(
    seed: int,
    lossRate: real,
    duplicateRate: real,
    reorderRate: real,
    delayMs: real,
    jitterMs: real,
    reorderExtraMs: real,
    burstLoss: Option<Burst>,
    blackHole: Option<BlackHole>)

  datatype Stats = Stats(
    seen: nat,
    forwarded: nat,
    dropped: nat,
    duplicated: nat,
    delayed: nat,
    reordered: nat,
    blackHoled: nat,
    burstDropped: nat)

  datatype Engine<W> = Engine(rng: W, stats: Stats, fromClient: nat, fromServer: nat)

  datatype Reason = BlackHoled | BurstLoss | SeededLoss
  datatype Plan = Drop(reason: Reason) | Forward(delaysMs: seq<int>)

  datatype Packet = Packet(direction: Direction, nowMs: real)

  function Start<W>(seed: W): (e: Engine<W>) { Engine(seed, Stats(0, 0, 0, 0, 0, 0, 0, 0), 0, 0) }

  predicate InBlackHole(p: Profile, elapsed: real) {
    p.blackHole.Some? && p.blackHole.value.startMs <= elapsed
    && elapsed < p.blackHole.value.startMs + p.blackHole.value.durationMs
  }

  predicate InBurst(p: Profile, packet: nat) {
    p.burstLoss.Some? && p.burstLoss.value.startPacket <= packet
    && packet < p.burstLoss.value.startPacket + p.burstLoss.value.packetCount
  }

  function Round(x: real): (n: int) { (x + 0.5).Floor }

  /** The nearest integer, and the upper one of two. */
  lemma RoundExact(x: real)
    ensures x - 0.5 < Round(x) as real <= x + 0.5
  {
  }

  function Counted<W>(e: Engine<W>, d: Direction): (r: Engine<W>) {
    var s := e.(stats := e.stats.(seen := e.stats.seen + 1));
    match d
    case ClientToServer => s.(fromClient := s.fromClient + 1)
    case ServerToClient => s.(fromServer := s.fromServer + 1)
  }

  function PacketNumber<W>(e: Engine<W>, d: Direction): (n: nat) {
    match d case ClientToServer => e.fromClient case ServerToClient => e.fromServer
  }

  function NonNegative(x: real): (r: real) { if x < 0.0 then 0.0 else x }

  /** The delay before reordering, for a jitter draw of `u`. */
  function BaseDelay(p: Profile, u: real): (r: real) {
    NonNegative(p.delayMs + if p.jitterMs == 0.0 then 0.0 else Jitter(u, p.jitterMs))
  }

  function Jitter(u: real, jitterMs: real): (r: real) { (u * 2.0 - 1.0) * jitterMs }

  /** What the draws decide for a packet that is not dropped. */
  datatype Fate = Fate(base: real, reordered: bool, duplicated: bool)

  function DrawnFate<W>(g: Generator<W>, p: Profile, x: W): (r: (Fate, W)) {
    var afterJitter := if p.jitterMs == 0.0 then x else g.next(x);
    var afterReorder := g.next(afterJitter);
    var afterDuplicate := g.next(afterReorder);
    (Fate(
       BaseDelay(p, if p.jitterMs == 0.0 then 0.0 else g.unit(afterJitter)),
       g.unit(afterReorder) < p.reorderRate,
       g.unit(afterDuplicate) < p.duplicateRate),
     afterDuplicate)
  }

  function Wait(p: Profile, base: real, reordered: bool): (r: real) {
    if reordered then base + p.reorderExtraMs else base
  }

  /** How a fate is counted and planned. */
  function Delivered(p: Profile, s: Stats, f: Fate): (r: (Stats, Plan)) {
    var delay := Wait(p, f.base, f.reordered);
    var delays := if f.duplicated then [Round(delay), Round(delay + 1.0)] else [Round(delay)];
    (s.(
       reordered := s.reordered + (if f.reordered then 1 else 0),
       delayed := s.delayed + (if delay > 0.0 then 1 else 0),
       duplicated := s.duplicated + (if f.duplicated then 1 else 0),
       forwarded := s.forwarded + |delays|),
     Forward(delays))
  }

  /** The part of `plan` after the loss draw has spared the packet. */
  function Deliver<W>(g: Generator<W>, p: Profile, e: Engine<W>): (r: (Engine<W>, Plan)) {
    var drawn := DrawnFate(g, p, e.rng);
    var delivered := Delivered(p, e.stats, drawn.0);
    (e.(rng := drawn.1, stats := delivered.0), delivered.1)
  }

  function Dropped(s: Stats, reason: Reason): (r: Stats) {
    s.(
      dropped := s.dropped + 1,
      blackHoled := s.blackHoled + (if reason == BlackHoled then 1 else 0),
      burstDropped := s.burstDropped + (if reason == BurstLoss then 1 else 0))
  }

  /** `plan`. */
  function PlanPacket<W>(g: Generator<W>, p: Profile, startMs: real, e: Engine<W>, k: Packet): (r: (Engine<W>, Plan)) {
    var c := Counted(e, k.direction);
    if InBlackHole(p, NonNegative(k.nowMs - startMs)) then
      (c.(stats := Dropped(c.stats, BlackHoled)), Drop(BlackHoled))
    else if InBurst(p, PacketNumber(c, k.direction)) then
      (c.(stats := Dropped(c.stats, BurstLoss)), Drop(BurstLoss))
    else
      var drawn := c.(rng := g.next(c.rng));
      if g.unit(drawn.rng) < p.lossRate then (drawn.(stats := Dropped(c.stats, SeededLoss)), Drop(SeededLoss))
      else Deliver(g, p, drawn)
  }

  /** The numbers the generator hands out from the state `x` on, counted from 1. */
  ghost function DrawnAt<W>(g: Generator<W>, x: W, i: nat): (u: real) { g.unit(Iterate(g, x, i)) }

  ghost function Swallowed(p: Profile, startMs: real): (hit: Packet -> bool) {
    (k: Packet) =>
      var elapsed := if k.nowMs < startMs then 0.0 else k.nowMs - startMs;
      match p.blackHole
      case None => false
      case Some(hole) => hole.startMs <= elapsed < hole.startMs + hole.durationMs
  }

  /** The packet's number in its direction lies in the burst window. */
  ghost predicate Bursts<W>(p: Profile, e: Engine<W>, d: Direction) {
    var number := 1 + if d == ClientToServer then e.fromClient else e.fromServer;
    match p.burstLoss
    case None => false
    case Some(burst) => burst.startPacket <= number < burst.startPacket + burst.packetCount
  }

  /**
   Why a packet is dropped: a black hole comes first, then a burst, and only
   then is a number drawn and held against the loss rate.
   */
  lemma DroppedExactly<W>(g: Generator<W>, p: Profile, startMs: real, e: Engine<W>, k: Packet)
    ensures var r := PlanPacket(g, p, startMs, e, k);
      var swallowed, bursts := Swallowed(p, startMs)(k), Bursts(p, e, k.direction);
      && (r.1 == Drop(BlackHoled) <==> swallowed)
      && (r.1 == Drop(BurstLoss) <==> !swallowed && bursts)
      && (r.1 == Drop(SeededLoss) <==> !swallowed && !bursts && DrawnAt(g, e.rng, 1) < p.lossRate)
      && (r.1.Drop? && r.1.reason != SeededLoss ==> r.0.rng == e.rng)
      && (r.1 == Drop(SeededLoss) ==> r.0.rng == Iterate(g, e.rng, 1))
      && (r.1.Drop? ==> r.0.stats == e.stats.(
           seen := e.stats.seen + 1,
           dropped := e.stats.dropped + 1,
           blackHoled := e.stats.blackHoled + (if swallowed then 1 else 0),
           burstDropped := e.stats.burstDropped + (if !swallowed && bursts then 1 else 0)))
      && r.0.fromClient == e.fromClient + (if k.direction == ClientToServer then 1 else 0)
      && r.0.fromServer == e.fromServer + (if k.direction == ServerToClient then 1 else 0)
  {
    assert Iterate(g, e.rng, 1) == g.next(Iterate(g, e.rng, 0));
  }

  /** What a packet that is not dropped waits for, in terms of the numbers drawn after the first. */
  ghost function Waits<W>(g: Generator<W>, p: Profile, x: W): (delay: real) {
    var draws := if p.jitterMs == 0.0 then 1 else 2;
    var jittered := if p.jitterMs == 0.0 then p.delayMs
                    else p.delayMs + (DrawnAt(g, x, 2) * 2.0 - 1.0) * p.jitterMs;
    (if jittered < 0.0 then 0.0 else jittered)
    + if DrawnAt(g, x, draws + 1) < p.reorderRate then p.reorderExtraMs else 0.0
  }

  /**
   What becomes of a packet that is not dropped. With jitter a second number is
   drawn for it; the next one decides about reordering and the last one about
   duplication.
   */
  lemma ForwardedExactly<W>(g: Generator<W>, p: Profile, startMs: real, e: Engine<W>, k: Packet)
    requires PlanPacket(g, p, startMs, e, k).1.Forward?
    ensures var r, draws := PlanPacket(g, p, startMs, e, k), if p.jitterMs == 0.0 then 1 else 2;
      var wait := Waits(g, p, e.rng);
      var reordered, duplicated :=
        DrawnAt(g, e.rng, draws + 1) < p.reorderRate, DrawnAt(g, e.rng, draws + 2) < p.duplicateRate;
      && r.1 == Forward(if duplicated then [Round(wait), Round(wait + 1.0)] else [Round(wait)])
      && r.0.rng == Iterate(g, e.rng, draws + 2)
      && r.0.stats == e.stats.(
           seen := e.stats.seen + 1,
           forwarded := e.stats.forwarded + (if duplicated then 2 else 1),
           duplicated := e.stats.duplicated + (if duplicated then 1 else 0),
           reordered := e.stats.reordered + (if reordered then 1 else 0),
           delayed := e.stats.delayed + (if wait > 0.0 then 1 else 0))
  {
    var one := Iterate(g, e.rng, 1);
    var two, three, four := g.next(one), g.next(g.next(one)), g.next(g.next(g.next(one)));
    assert one == g.next(Iterate(g, e.rng, 0));
    assert Iterate(g, e.rng, 2) == two && Iterate(g, e.rng, 3) == three && Iterate(g, e.rng, 4) == four;
    var c := Counted(e, k.direction).(rng := one);
    assert PlanPacket(g, p, startMs, e, k) == Deliver(g, p, c);
    var fate := DrawnFate(g, p, one).0;
    assert Wait(p, fate.base, fate.reordered) == Waits(g, p, e.rng);
  }

  lemma DelayOfFate(p: Profile, s: Stats, f: Fate, u: real)
    requires 0.0 <= u < 1.0 && p.jitterMs >= 0.0 && f.base == BaseDelay(p, u)
    ensures NonNegative(p.delayMs - p.jitterMs) <= f.base <= NonNegative(p.delayMs + p.jitterMs)
    ensures var plan := Delivered(p, s, f).1;
      var wait := f.base + if f.reordered then p.reorderExtraMs else 0.0;
      && plan.Forward? && |plan.delaysMs| == (if f.duplicated then 2 else 1)
      && wait - 0.5 < plan.delaysMs[0] as real <= wait + 0.5
      && (f.duplicated ==> plan.delaysMs[1] == plan.delaysMs[0] + 1)
  {
    JitterRange(u, p.jitterMs);
  }

  /** The generator's numbers lie in [0, 1). */
  ghost predicate InUnit<W(!new)>(g: Generator<W>) { forall w :: 0.0 <= g.unit(w) < 1.0 }

  /** What a plan that went from `before` to `after` in the statistics may be. */
  ghost predicate TimelyPlan(p: Profile, before: Stats, after: Stats, plan: Plan) {
    plan.Forward? ==>
      && before.reordered <= after.reordered <= before.reordered + 1
      && before.duplicated <= after.duplicated <= before.duplicated + 1
      && |plan.delaysMs| == 1 + (after.duplicated - before.duplicated)
      && var extra := if after.reordered == before.reordered then 0.0 else p.reorderExtraMs;
      && NonNegative(p.delayMs - p.jitterMs) + extra - 0.5 < plan.delaysMs[0] as real
      && plan.delaysMs[0] as real <= NonNegative(p.delayMs + p.jitterMs) + extra + 0.5
      && (|plan.delaysMs| == 2 ==> plan.delaysMs[1] == plan.delaysMs[0] + 1)
  }

  lemma DeliverTimely<W(!new)>(g: Generator<W>, p: Profile, e: Engine<W>)
    requires InUnit(g) && p.jitterMs >= 0.0
    ensures TimelyPlan(p, e.stats, Deliver(g, p, e).0.stats, Deliver(g, p, e).1)
  {
    var u := if p.jitterMs == 0.0 then 0.0 else g.unit(g.next(e.rng));
    DelayOfFate(p, e.stats, DrawnFate(g, p, e.rng).0, u);
  }

  /**
   A packet that is forwarded waits, to the millisecond, between the configured
   delay less and plus the jitter, never less than nothing, and longer by the
   reorder extra exactly if it is counted as reordered; it is sent twice exactly
   if it is counted as duplicated, one millisecond apart.
   */
  lemma DelayRange(p: Profile, startMs: real, e: Engine<Word>, k: Packet)
    requires p.jitterMs >= 0.0
    ensures var r := PlanPacket(Xorshift(), p, startMs, e, k);
      TimelyPlan(p, e.stats, r.0.stats, r.1)
  {
    forall w: Word ensures 0.0 <= Xorshift().unit(w) < 1.0 { UnitRange(w); }
    PlanTimely(Xorshift(), p, startMs, e, k);
  }

  lemma PlanTimely<W(!new)>(g: Generator<W>, p: Profile, startMs: real, e: Engine<W>, k: Packet)
    requires InUnit(g) && p.jitterMs >= 0.0
    ensures TimelyPlan(p, e.stats, PlanPacket(g, p, startMs, e, k).0.stats, PlanPacket(g, p, startMs, e, k).1)
  {
    var c := Counted(e, k.direction);
    DeliverTimely(g, p, c.(rng := g.next(c.rng)));
  }

  lemma JitterRange(u: real, j: real)
    requires 0.0 <= u < 1.0 && j >= 0.0
    ensures -j <= Jitter(u, j) <= j
  {
    var f := u * 2.0 - 1.0;
    ScaleWithin(f, j);
  }

  lemma ScaleWithin(f: real, j: real)
    requires -1.0 <= f <= 1.0 && j >= 0.0
    ensures -j <= f * j <= j
  {
    var below, above := 1.0 - f, 1.0 + f;
    assert below * j >= 0.0;
    assert above * j >= 0.0;
    assert below * j == j - f * j;
    assert above * j == j + f * j;
  }

  function RunPackets<W>(g: Generator<W>, seed: W, p: Profile, startMs: real, packets: seq<Packet>): (e: Engine<W>) {
    if packets == [] then Start(seed)
    else PlanPacket(g, p, startMs, RunPackets(g, seed, p, startMs, packets[..|packets| - 1]), packets[|packets| - 1]).0
  }

  // ---------------------------------------------------------------- invariants of every run

  ghost predicate Conserved(s: Stats) {
    && s.seen == s.dropped + (s.forwarded - s.duplicated)
    && s.blackHoled + s.burstDropped <= s.dropped
    && s.duplicated <= s.seen - s.dropped
    && s.reordered <= s.seen - s.dropped
    && s.delayed <= s.seen - s.dropped
  }

  lemma DroppedConserves(s: Stats, reason: Reason)
    requires s.seen > 0 && Conserved(s.(seen := s.seen - 1))
    ensures Conserved(Dropped(s, reason)) && Dropped(s, reason).seen == s.seen
  {
  }

  lemma DeliveredConserves(p: Profile, s: Stats, f: Fate)
    requires s.seen > 0 && Conserved(s.(seen := s.seen - 1))
    ensures Conserved(Delivered(p, s, f).0) && Delivered(p, s, f).0.seen == s.seen
  {
  }

  lemma PlanConserves<W>(g: Generator<W>, p: Profile, startMs: real, e: Engine<W>, k: Packet)
    requires Conserved(e.stats) && e.fromClient + e.fromServer == e.stats.seen
    ensures var e' := PlanPacket(g, p, startMs, e, k).0;
      Conserved(e'.stats) && e'.fromClient + e'.fromServer == e'.stats.seen == e.stats.seen + 1
  {
    var c := Counted(e, k.direction);
    DroppedConserves(c.stats, BlackHoled);
    DroppedConserves(c.stats, BurstLoss);
    DroppedConserves(c.stats, SeededLoss);
    DeliveredConserves(p, c.stats, DrawnFate(g, p, g.next(c.rng)).0);
  }

  /** Every packet is dropped once or forwarded once or twice, and counted in its direction. */
  lemma {:induction false} PacketsConserved<W>(
    g: Generator<W>, seed: W, p: Profile, startMs: real, packets: seq<Packet>)
    ensures var e := RunPackets(g, seed, p, startMs, packets);
      Conserved(e.stats) && e.fromClient + e.fromServer == e.stats.seen == |packets|
  {
    if packets != [] {
      var before := packets[..|packets| - 1];
      PacketsConserved(g, seed, p, startMs, before);
      PlanConserves(g, p, startMs, RunPackets(g, seed, p, startMs, before), packets[|packets| - 1]);
    }
  }

  /** At the ends of their range the rates mean never and always. */
  ghost predicate Extreme(p: Profile, s: Stats) {
    && (p.lossRate <= 0.0 ==> s.dropped == s.blackHoled + s.burstDropped)
    && (p.lossRate >= 1.0 ==> s.forwarded == 0 && s.dropped == s.seen)
    && (p.reorderRate <= 0.0 ==> s.reordered == 0)
    && (p.reorderRate >= 1.0 ==> s.reordered == s.seen - s.dropped)
    && (p.duplicateRate <= 0.0 ==> s.duplicated == 0)
    && (p.duplicateRate >= 1.0 ==> s.duplicated == s.seen - s.dropped)
    && (p.delayMs > p.jitterMs >= 0.0 && p.reorderExtraMs >= 0.0 ==> s.delayed == s.seen - s.dropped)
  }

  lemma PlanExtreme<W(!new)>(g: Generator<W>, p: Profile, startMs: real, e: Engine<W>, k: Packet)
    requires InUnit(g) && Extreme(p, e.stats)
    ensures Extreme(p, PlanPacket(g, p, startMs, e, k).0.stats)
  {
    DroppedExactly(g, p, startMs, e, k);
    if PlanPacket(g, p, startMs, e, k).1.Forward? {
      ForwardedExactly(g, p, startMs, e, k);
      if p.jitterMs > 0.0 { JitterRange(DrawnAt(g, e.rng, 2), p.jitterMs); }
    }
  }

  /** A rate of 0 never strikes and a rate of 1 always, over every run. */
  lemma {:induction false} RatesAtTheEnds<W(!new)>(
    g: Generator<W>, seed: W, p: Profile, startMs: real, packets: seq<Packet>)
    requires InUnit(g)
    ensures Extreme(p, RunPackets(g, seed, p, startMs, packets).stats)
  {
    if packets != [] {
      var before := packets[..|packets| - 1];
      RatesAtTheEnds(g, seed, p, startMs, before);
      PlanExtreme(g, p, startMs, RunPackets(g, seed, p, startMs, before), packets[|packets| - 1]);
    }
  }

  /** The black hole swallows exactly the packets that come while it is open. */
  lemma {:induction false} BlackHoleExact<W>(
    g: Generator<W>, seed: W, p: Profile, startMs: real, packets: seq<Packet>)
    ensures RunPackets(g, seed, p, startMs, packets).stats.blackHoled == NumberOf(packets, Swallowed(p, startMs))
  {
    NumberOfExact(packets, Swallowed(p, startMs));
    if packets != [] {
      var before := packets[..|packets| - 1];
      BlackHoleExact(g, seed, p, startMs, before);
      var e, k := RunPackets(g, seed, p, startMs, before), packets[|packets| - 1];
      DroppedExactly(g, p, startMs, e, k);
    }
  }

  /** Random words drawn so far, read off the statistics. */
  function Draws(p: Profile, s: Stats): (n: int) {
    (s.seen - s.blackHoled - s.burstDropped) + (if p.jitterMs == 0.0 then 2 else 3) * (s.seen - s.dropped)
  }

  /** How many words one packet draws, and that they are drawn one after the other. */
  lemma PlanDraws<W>(g: Generator<W>, p: Profile, startMs: real, e: Engine<W>, k: Packet)
    ensures var e' := PlanPacket(g, p, startMs, e, k).0;
      var n := Draws(p, e'.stats) - Draws(p, e.stats);
      0 <= n <= 4 && e'.rng == Iterate(g, e.rng, n)
  {
    var x := e.rng;
    assert Iterate(g, x, 1) == g.next(x);
    assert Iterate(g, x, 2) == g.next(g.next(x));
    assert Iterate(g, x, 3) == g.next(g.next(g.next(x)));
    assert Iterate(g, x, 4) == g.next(g.next(g.next(g.next(x))));
  }

  lemma {:induction false} IterateAdd<W>(g: Generator<W>, x: W, m: nat, n: nat)
    ensures Iterate(g, Iterate(g, x, m), n) == Iterate(g, x, m + n)
  {
    if n > 0 { IterateAdd(g, x, m, n - 1); }
  }

  ghost predicate AtPosition<W>(g: Generator<W>, seed: W, p: Profile, e: Engine<W>) {
    Draws(p, e.stats) >= 0 && e.rng == Iterate(g, seed, Draws(p, e.stats))
  }

  lemma PositionStep<W>(g: Generator<W>, seed: W, p: Profile, startMs: real, e: Engine<W>, k: Packet)
    requires AtPosition(g, seed, p, e)
    ensures AtPosition(g, seed, p, PlanPacket(g, p, startMs, e, k).0)
  {
    PlanDraws(g, p, startMs, e, k);
    var n := Draws(p, e.stats);
    IterateAdd(g, seed, n, Draws(p, PlanPacket(g, p, startMs, e, k).0.stats) - n);
  }

  /** The generator's position is a function of the statistics. */
  lemma {:induction false} GeneratorPosition<W>(
    g: Generator<W>, seed: W, p: Profile, startMs: real, packets: seq<Packet>)
    ensures AtPosition(g, seed, p, RunPackets(g, seed, p, startMs, packets))
  {
    if packets != [] {
      var before := packets[..|packets| - 1];
      GeneratorPosition(g, seed, p, startMs, before);
      PositionStep(g, seed, p, startMs, RunPackets(g, seed, p, startMs, before), packets[|packets| - 1]);
    }
  }

  /** With xorshift32 and any seed, no reachable state is zero. */
  lemma NeverZero(p: Profile, startMs: real, packets: seq<Packet>)
    ensures RunPackets(Xorshift(), SeedState(p.seed), p, startMs, packets).rng != Zero()
  {
    var e := RunPackets(Xorshift(), SeedState(p.seed), p, startMs, packets);
    GeneratorPosition(Xorshift(), SeedState(p.seed), p, startMs, packets);
    SeedNonZero(p.seed);
    forall w: Word ensures Xorshift().next(w) == Zero() ==> w == Zero() {
      NextNonZero(w);
    }
    IterateAvoids(Xorshift(), SeedState(p.seed), Draws(p, e.stats), Zero());
  }

  /** How many of the packet numbers 1..n fall into the burst window. */
  function BurstHits(p: Profile, n: nat): (k: nat) {
    if n == 0 then 0 else BurstHits(p, n - 1) + if InBurst(p, n) then 1 else 0
  }

  lemma {:induction false} BurstHitsClosed(p: Profile, n: nat)
    requires p.burstLoss.Some? && p.burstLoss.value.startPacket >= 1
    ensures var first, count := p.burstLoss.value.startPacket, p.burstLoss.value.packetCount;
      BurstHits(p, n) == if n < first then 0 else if n < first + count then n - first + 1 else count
  {
    if n > 0 { BurstHitsClosed(p, n - 1); }
  }

  /** A run before its last packet, that packet, and what became of it. */
  ghost function LastPlan<W>(
    g: Generator<W>, seed: W, p: Profile, startMs: real, packets: seq<Packet>): (r: (Engine<W>, Plan))
    requires packets != []
  {
    var n := |packets| - 1;
    PlanPacket(g, p, startMs, RunPackets(g, seed, p, startMs, packets[..n]), packets[n])
  }

  /** Packets of one direction that were dropped for `reason` with a number in the burst window. */
  ghost function DroppedInWindow<W>(
    g: Generator<W>, seed: W, p: Profile, startMs: real, packets: seq<Packet>, d: Direction,
    reason: Reason): (n: nat) {
    if packets == [] then 0
    else
      var last := LastPlan(g, seed, p, startMs, packets);
      var hit := packets[|packets| - 1].direction == d && last.1 == Drop(reason) && InBurst(p, PacketNumber(last.0, d));
      DroppedInWindow(g, seed, p, startMs, packets[..|packets| - 1], d, reason) + if hit then 1 else 0
  }

  /**
   Burst loss is exact per direction: of the packet numbers of its window that
   were reached, each was dropped by it or had been swallowed by a black hole
   first; and nothing else counts as burst loss.
   */
  lemma {:induction false} BurstExact<W>(g: Generator<W>, seed: W, p: Profile, startMs: real, packets: seq<Packet>)
    ensures var e := RunPackets(g, seed, p, startMs, packets);
      && (forall d :: BurstHits(p, PacketNumber(e, d))
            == DroppedInWindow(g, seed, p, startMs, packets, d, BurstLoss)
             + DroppedInWindow(g, seed, p, startMs, packets, d, BlackHoled))
      && e.stats.burstDropped
         == DroppedInWindow(g, seed, p, startMs, packets, ClientToServer, BurstLoss)
          + DroppedInWindow(g, seed, p, startMs, packets, ServerToClient, BurstLoss)
      && (p.blackHole.None? ==> forall d :: DroppedInWindow(g, seed, p, startMs, packets, d, BlackHoled) == 0)
  {
    if packets != [] {
      var before, k := packets[..|packets| - 1], packets[|packets| - 1];
      BurstExact(g, seed, p, startMs, before);
      var e := RunPackets(g, seed, p, startMs, before);
      PlanBurst(g, p, startMs, e, k, ClientToServer);
      PlanBurst(g, p, startMs, e, k, ServerToClient);
    }
  }

  /** One packet and one direction. */
  lemma PlanBurst<W>(g: Generator<W>, p: Profile, startMs: real, e: Engine<W>, k: Packet, d: Direction)
    ensures var r := PlanPacket(g, p, startMs, e, k);
      var hit := k.direction == d && InBurst(p, PacketNumber(r.0, d));
      && (BurstHits(p, PacketNumber(r.0, d)) == BurstHits(p, PacketNumber(e, d)) + if hit then 1 else 0)
      && (hit ==> r.1 == Drop(BurstLoss) || (r.1 == Drop(BlackHoled) && p.blackHole.Some?))
      && (k.direction == d && r.1 == Drop(BurstLoss) ==> hit)
      && r.0.stats.burstDropped == e.stats.burstDropped + (if r.1 == Drop(BurstLoss) then 1 else 0)
      && (r.1 == Drop(BlackHoled) ==> p.blackHole.Some?)
  {
  }

  /** Without a black hole, burst loss takes exactly the window's packet numbers. */
  lemma BurstTakesWindow<W>(g: Generator<W>, seed: W, p: Profile, startMs: real, packets: seq<Packet>)
    requires p.blackHole.None?
    ensures var e := RunPackets(g, seed, p, startMs, packets);
      e.stats.burstDropped == BurstHits(p, e.fromClient) + BurstHits(p, e.fromServer)
  {
    BurstExact(g, seed, p, startMs, packets);
    var e := RunPackets(g, seed, p, startMs, packets);
    assert e.fromClient == PacketNumber(e, ClientToServer) && e.fromServer == PacketNumber(e, ServerToClient);
  }

  // ---------------------------------------------------------------- the engine as objects

  class XorShift32 {
    var state: Word

    /** The state's value is the seed modulo 2^32, or the constant where that is zero; it is never the zero word. */
    constructor (seed: int)
      ensures ValueFrom(state, 0) ==
        if seed % 0x1_0000_0000 == 0 then 0x6d2b_79f5 else seed % 0x1_0000_0000
      ensures state == SeedState(seed) && state != Zero()
    {
      var truncated: nat := seed % 0x1_0000_0000;
      var start := if truncated != 0 then truncated else 0x6d2b_79f5;
      ValueOfWord(start);
      SeedWord(seed);
      SeedNonZero(seed);
      state := WordOf(start);
    }

    method Draw() returns (u: real)
      modifies this
      ensures state == Next(old(state)) && u == Unit(state)
    {
      var value := state;
      value := Xor(value, Shl(value, 13));
      value := Xor(value, Shr(value, 17));
      value := Xor(value, Shl(value, 5));
      state := value;
      u := Unit(value);
    }
  }

  /** The engine, for any generator; the source's own is `XorShift32`. */
  class SeededUdpFaultEngine<W> {
    const generator: Generator<W>
    const profile: Profile
    const startMs: real
    var random: W
    var stats: Stats
    var packetCount: map<Direction, nat>

    function CountOf(d: Direction): (n: nat)
      reads this
    {
      if d in packetCount then packetCount[d] else 0
    }

    function View(): (e: Engine<W>)
      reads this
    {
      Engine(random, stats, CountOf(ClientToServer), CountOf(ServerToClient))
    }

    constructor (g: Generator<W>, seed: W, p: Profile, startMs: real)
      ensures generator == g && profile == p && this.startMs == startMs && View() == Start(seed)
    {
      generator, profile, this.startMs := g, p, startMs;
      random := seed;
      stats := Stats(0, 0, 0, 0, 0, 0, 0, 0);
      packetCount := map[];
    }

    method Draw() returns (u: real)
      modifies this`random
      ensures random == generator.next(old(random)) && u == generator.unit(random)
    {
      random := generator.next(random);
      u := generator.unit(random);
    }

    method PlanNext(direction: Direction, nowMs: real) returns (plan: Plan)
      modifies this
      ensures (View(), plan) == PlanPacket(generator, profile, startMs, old(View()), Packet(direction, nowMs))
    {
      stats := stats.(seen := stats.seen + 1);
      var packet := CountOf(direction) + 1;
      packetCount := packetCount[direction := packet];
      var elapsed := if nowMs - startMs < 0.0 then 0.0 else nowMs - startMs;
      if InBlackHole(profile, elapsed) {
        stats := stats.(dropped := stats.dropped + 1, blackHoled := stats.blackHoled + 1);
        return Drop(BlackHoled);
      }
      if InBurst(profile, packet) {
        stats := stats.(dropped := stats.dropped + 1, burstDropped := stats.burstDropped + 1);
        return Drop(BurstLoss);
      }
      var loss := Draw();
      if loss < profile.lossRate {
        stats := stats.(dropped := stats.dropped + 1);
        return Drop(SeededLoss);
      }
      plan := DeliverNext();
    }

    /** The delay before reordering; draws only if there is jitter. */
    method DrawBase() returns (base: real)
      modifies this`random
      ensures random == if profile.jitterMs == 0.0 then old(random) else generator.next(old(random))
      ensures base == BaseDelay(profile, if profile.jitterMs == 0.0 then 0.0 else generator.unit(random))
    {
      var jitter := 0.0;
      if profile.jitterMs != 0.0 { jitter := Draw(); }
      base := BaseDelay(profile, jitter);
    }

    /** The delay after reordering, counted. */
    method CountDelay(base: real, reordered: bool) returns (delay: real)
      modifies this`stats
      ensures delay == Wait(profile, base, reordered)
      ensures stats == old(stats).(
        reordered := old(stats).reordered + (if reordered then 1 else 0),
        delayed := old(stats).delayed + (if delay > 0.0 then 1 else 0))
    {
      delay := base;
      if reordered {
        delay := delay + profile.reorderExtraMs;
        stats := stats.(reordered := stats.reordered + 1);
      }
      if delay > 0.0 { stats := stats.(delayed := stats.delayed + 1); }
    }

    method DeliverNext() returns (plan: Plan)
      modifies this`stats, this`random
      ensures (View(), plan) == Deliver(generator, profile, old(View()))
    {
      var base := DrawBase();
      var r := Draw();
      var delay := CountDelay(base, r < profile.reorderRate);
      var delaysMs := [Round(delay)];
      var d := Draw();
      ghost var fate := Fate(base, r < profile.reorderRate, d < profile.duplicateRate);
      assert (fate, random) == DrawnFate(generator, profile, old(random));
      if d < profile.duplicateRate {
        delaysMs := delaysMs + [Round(delay + 1.0)];
        assert delaysMs == [Round(delay), Round(delay + 1.0)];
        stats := stats.(duplicated := stats.duplicated + 1);
      }
      stats := stats.(forwarded := stats.forwarded + |delaysMs|);
      plan := Forward(delaysMs);
      assert (stats, plan) == Delivered(profile, old(stats), fate);
    }
  }

  // ---------------------------------------------------------------- client binding in the proxy

  /** `isQuicLongHeader`. */
  predicate IsLongHeader(data: seq<byte>) { |data| > 0 && data[0] >= 0x80 }

  /** The top bit of the first octet decides. */
  lemma LongHeaderExact(first: byte, rest: seq<byte>)
    ensures !IsLongHeader([]) && (IsLongHeader([first] + rest) <==> first / 128 % 2 == 1)
  {
  }

  datatype Datagram = Datagram(source: (string, nat), data: seq<byte>)

  /** The bound client and the datagrams handed to the engine, in order. */
  datatype Proxy = Proxy(client: Option<(string, nat)>, forwarded: seq<Datagram>)

  function Receive(x: Proxy, d: Datagram): (r: Proxy) {
    if x.client.Some? && x.client.value != d.source then x
    else if x.client.None? && !IsLongHeader(d.data) then x
    else Proxy(Some(d.source), x.forwarded + [d])
  }

  function ReceiveAll(ds: seq<Datagram>): (x: Proxy) {
    if ds == [] then Proxy(None, []) else Receive(ReceiveAll(ds[..|ds| - 1]), ds[|ds| - 1])
  }

  class UdpFaultProxy {
    var client: Option<(string, nat)>
    var forwarded: seq<Datagram>

    constructor ()
      ensures View() == ReceiveAll([])
    {
      client, forwarded := None, [];
    }

    function View(): (x: Proxy)
      reads this
    {
      Proxy(client, forwarded)
    }

    /** The handler of datagrams on the client-facing socket. */
    method OnFrontMessage(d: Datagram)
      modifies this
      ensures View() == Receive(old(View()), d)
    {
      if client.Some? && client.value != d.source { return; }
      if client.None? && !IsLongHeader(d.data) { return; }
      client := Some(d.source);
      forwarded := forwarded + [d];
    }
  }

  /** Datagrams from `source`, in order. */
  ghost function FromSource(ds: seq<Datagram>, source: (string, nat)): (r: seq<Datagram>) {
    if ds == [] then []
    else FromSource(ds[..|ds| - 1], source) + if ds[|ds| - 1].source == source then [ds[|ds| - 1]] else []
  }

  /**
   The proxy binds to the sender of the first long-header datagram, stays with
   it, and forwards exactly that sender's datagrams from there on; stale short
   headers before it bind nothing.
   */
  lemma {:induction false} BindsFirstConnection(ds: seq<Datagram>, i: nat)
    requires i < |ds| && IsLongHeader(ds[i].data) && (forall k :: 0 <= k < i ==> !IsLongHeader(ds[k].data))
    ensures ReceiveAll(ds) == Proxy(Some(ds[i].source), FromSource(ds[i..], ds[i].source))
    decreases |ds|
  {
    var last := |ds| - 1;
    var before := ds[..last];
    if i < last {
      BindsFirstConnection(before, i);
      assert ds[i..][..|ds[i..]| - 1] == before[i..];
    } else {
      NothingBound(before);
      assert ds[i..] == [ds[i]];
      assert FromSource([ds[i]], ds[i].source) == FromSource([], ds[i].source) + [ds[i]];
    }
  }

  lemma {:induction false} NothingBound(ds: seq<Datagram>)
    requires forall k :: 0 <= k < |ds| ==> !IsLongHeader(ds[k].data)
    ensures ReceiveAll(ds) == Proxy(None, [])
  {
    if ds != [] { NothingBound(ds[..|ds| - 1]); }
  }
}
