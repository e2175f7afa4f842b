// The AXI front end makes progress: every address is taken within a fixed number
// of cycles, and reads and writes take turns
// (vsrc/perip/sdram/core_sdram_axi4/sdram_axi_pmem.v).
module SdramProgress {
  import opened SdramCore
  import opened SdramProtocol
  import opened SdramPort
  import opened SdramBursts
  import opened SdramAxi

  // ----- Obligations of the master -----

  /** Responses are taken, and there are data for every write. */
  predicate Supplies(p: Port, a: Master) { a.bready && a.rready && (a.aw.Addr? || p.b.wr ==> a.w.Data?) }

  ghost predicate SuppliesAt(ps: nat -> Port, ms: nat -> Master, n: nat) { Supplies(ps(n), ms(n)) }

  ghost predicate KeepsSupplying(ps: nat -> Port, ms: nat -> Master) { forall n: nat :: SuppliesAt(ps, ms, n) }

  // ----- The next beat -----

  /** There is something to do: a burst under way, or an address. */
  predicate Wants(p: Port, a: Master) { p.b.rd || p.b.wr || a.ar.Addr? || a.aw.Addr? }

  /** With room in the request queue, something to do becomes a request. */
  lemma WantsRequests(p: Port, a: Master)
    requires Sane(p) && Wants(p, a) && Room(p) && (a.w.Data? ==> AnyLane(a.w.strb)) && Supplies(p, a)
    ensures RamRequest(p, a).Active()
  {
  }

  /** A full request queue has room again one cycle later. */
  lemma RoomReturns(p: Port, a: Master, r: Ram, c: Core)
    requires Sane(p) && !Room(p) && a.bready && a.rready && Balanced(c, p) && InFlight(c) <= 3
    requires r.ack ==> |p.responses| < DEPTH
    requires Pushes(p, a, r.accept) <==> r.accept
    ensures Room(PortStep(p, a, r)) && !r.accept && PortStep(p, a, r).b == p.b
    ensures PortStep(p, a, r).holdRd == p.holdRd && PortStep(p, a, r).holdWr == p.holdWr
  {
    QueuesAfter(p, a, r);
  }

  /** An address that waits on one side. */
  predicate Pending(read: bool, a: Master) { if read then a.ar.Addr? else a.aw.Addr? }

  predicate Taken(read: bool, p: Port, a: Master, accept: bool) {
    if read then ArTaken(p, a, accept) else AwTaken(p, a, accept)
  }

  /** Something to do leads to an accepted beat, the first from then on. */
  lemma NextBeat(t: Timing, cs: nat -> Core, ins: nat -> Input, ps: nat -> Port, ms: nat -> Master, n: nat)
    returns (m: nat)
    requires IsBus(t, cs, ins, ps, ms) && KeepsSupplying(ps, ms) && cs(n).state != Init && Wants(ps(n), ms(n))
    ensures n <= m <= n + 1 + AcceptBound(t) && Accepts(cs(m)) && forall k :: n <= k < m ==> !Accepts(cs(k))
  {
    PortHoldsRequests(t, cs, ins, ps, ms);
    if Room(ps(n)) {
      m := BeatWithRoom(t, cs, ins, ps, ms, n);
    } else {
      RoomNext(t, cs, ins, ps, ms, n);
      m := BeatWithRoom(t, cs, ins, ps, ms, n + 1);
    }
  }

  lemma BeatWithRoom(t: Timing, cs: nat -> Core, ins: nat -> Input, ps: nat -> Port, ms: nat -> Master, n: nat)
    returns (m: nat)
    requires IsBus(t, cs, ins, ps, ms) && KeepsSupplying(ps, ms) && RequestsHeld(cs, ins)
    requires cs(n).state != Init && Wants(ps(n), ms(n)) && Room(ps(n))
    ensures n <= m <= n + AcceptBound(t) && Accepts(cs(m)) && forall k :: n <= k < m ==> !Accepts(cs(k))
  {
    SanityHolds(t, cs, ins, ps, ms, n);
    assert LinkedAt(cs, ins, ps, ms, n) && ObligedAt(cs, ps, ms, n) && SuppliesAt(ps, ms, n);
    WantsRequests(ps(n), ms(n));
    m := HeldIsAccepted(t, cs, ins, n);
  }

  lemma RoomNext(t: Timing, cs: nat -> Core, ins: nat -> Input, ps: nat -> Port, ms: nat -> Master, n: nat)
    requires IsBus(t, cs, ins, ps, ms) && KeepsSupplying(ps, ms) && cs(n).state != Init
    requires Wants(ps(n), ms(n)) && !Room(ps(n))
    ensures Room(ps(n + 1)) && Wants(ps(n + 1), ms(n + 1)) && cs(n + 1).state != Init && !Accepts(cs(n))
  {
    SanityHolds(t, cs, ins, ps, ms, n);
    QueuesBalance(t, cs, ins, ps, ms, n);
    AcceptsRequests(t, cs, ins, ps, ms, n);
    PipelineHolds(t, cs, ins, n);
    ShapeHolds(t, cs, ins, n);
    assert StepsAt(t, cs, ins, n) && LinkedAt(cs, ins, ps, ms, n) && ObligedAt(cs, ps, ms, n) && SuppliesAt(ps, ms, n);
    InFlightBalance(t, cs(n), ins(n).req, ins(n).dq);
    RoomReturns(ps(n), ms(n), Ram(Accepts(cs(n)), cs(n).ack, cs(n).sample), cs(n));
    StaysStarted(t, cs(n), ins(n).req, ins(n).dq);
  }

  // ----- How many beats may come first -----

  /** The priority bit is on this side. */
  predicate Favoured(read: bool, p: Port) { if read then !p.b.prio else p.b.prio }

  predicate HeldFor(read: bool, p: Port) { if read then p.holdRd else p.holdWr }

  /** The beats that may be accepted before an address waiting on this side is
      taken: the rest of the burst under way, and at most two bursts of the other
      side, one because its request is held and one because it is favoured. */
  function BeatsBefore(read: bool, p: Port): nat {
    if p.b.rd || p.b.wr then p.b.len + 1 + if Favoured(read, p) then 0 else 256
    else if HeldFor(read, p) then 0
    else if Favoured(read, p) then if HeldFor(!read, p) then 512 else 0
    else 256
  }

  /** Every accepted beat brings a waiting address nearer; no cycle moves it back. */
  lemma TurnComesNearer(read: bool, p: Port, a: Master, r: Ram)
    requires Sane(p) && Holding(p, a) && Proper(p, a, r.accept) && (Pushes(p, a, r.accept) <==> r.accept)
    requires Pending(read, a) && !Taken(read, p, a, r.accept)
    ensures BeatsBefore(read, PortStep(p, a, r)) <= BeatsBefore(read, p)
    ensures r.accept ==> BeatsBefore(read, PortStep(p, a, r)) < BeatsBefore(read, p)
  {
    OneSideAtATime(p, a);
  }

  /** Nothing is lost while no beat is accepted. */
  lemma {:induction false} TurnsWhileWaiting(t: Timing, cs: nat -> Core, ins: nat -> Input, ps: nat -> Port,
                                             ms: nat -> Master, read: bool, n: nat, m: nat)
    requires IsBus(t, cs, ins, ps, ms) && n <= m && cs(n).state != Init && Pending(read, ms(n))
    requires forall k :: n <= k < m ==> !Accepts(cs(k))
    ensures Pending(read, ms(m)) && cs(m).state != Init && BeatsBefore(read, ps(m)) <= BeatsBefore(read, ps(n))
    decreases m
  {
    if n < m {
      TurnsWhileWaiting(t, cs, ins, ps, ms, read, n, m - 1);
      TurnStep(t, cs, ins, ps, ms, read, m - 1);
    }
  }

  lemma TurnStep(t: Timing, cs: nat -> Core, ins: nat -> Input, ps: nat -> Port, ms: nat -> Master, read: bool, n: nat)
    requires IsBus(t, cs, ins, ps, ms) && cs(n).state != Init
    requires Pending(read, ms(n)) && !Taken(read, ps(n), ms(n), Accepts(cs(n)))
    ensures Pending(read, ms(n + 1)) && cs(n + 1).state != Init
    ensures BeatsBefore(read, ps(n + 1)) <= BeatsBefore(read, ps(n))
    ensures Accepts(cs(n)) ==> BeatsBefore(read, ps(n + 1)) < BeatsBefore(read, ps(n))
  {
    SanityHolds(t, cs, ins, ps, ms, n);
    AcceptsRequests(t, cs, ins, ps, ms, n);
    ShapeHolds(t, cs, ins, n);
    assert StepsAt(t, cs, ins, n) && LinkedAt(cs, ins, ps, ms, n) && ObligedAt(cs, ps, ms, n);
    StaysStarted(t, cs(n), ins(n).req, ins(n).dq);
    TurnComesNearer(read, ps(n), ms(n), Ram(Accepts(cs(n)), cs(n).ack, cs(n).sample));
  }

  // ----- Every address is taken -----

  function BeatBound(t: Timing): nat
    requires t.Valid()
  {
    AcceptBound(t) + 2
  }

  lemma Distribute(a: nat, b: nat, d: nat)
    ensures (a + b) * d == a * d + b * d >= a * d
  {
  }

  lemma OneBeatLess(d: nat, few: nat, many: nat)
    requires few < many
    ensures d + (few + 1) * d <= (many + 1) * d
  {
    Distribute(few + 2, many - few - 1, d);
    Distribute(1, few + 1, d);
  }

  /** After initialisation a valid address is taken within a fixed number of
      cycles, whatever the other channel does. */
  lemma {:induction false} AddressIsTaken(t: Timing, cs: nat -> Core, ins: nat -> Input, ps: nat -> Port,
                                          ms: nat -> Master, read: bool, n: nat) returns (m: nat)
    requires IsBus(t, cs, ins, ps, ms) && KeepsSupplying(ps, ms) && cs(n).state != Init && Pending(read, ms(n))
    ensures n <= m <= n + (BeatsBefore(read, ps(n)) + 1) * BeatBound(t)
    ensures Taken(read, ps(m), ms(m), Accepts(cs(m)))
    decreases BeatsBefore(read, ps(n))
  {
    m := NextBeat(t, cs, ins, ps, ms, n);
    TurnsWhileWaiting(t, cs, ins, ps, ms, read, n, m);
    OneBeatLess(BeatBound(t), 0, BeatsBefore(read, ps(n)) + 1);
    if !Taken(read, ps(m), ms(m), Accepts(cs(m))) {
      TurnStep(t, cs, ins, ps, ms, read, m);
      OneBeatLess(BeatBound(t), BeatsBefore(read, ps(m + 1)), BeatsBefore(read, ps(n)));
      m := AddressIsTaken(t, cs, ins, ps, ms, read, m + 1);
    }
  }

  /** At most 512 beats come first: 18981 cycles as instantiated. */
  lemma AddressIsTakenInTime(t: Timing, cs: nat -> Core, ins: nat -> Input, ps: nat -> Port, ms: nat -> Master,
                             read: bool, n: nat) returns (m: nat)
    requires IsBus(t, cs, ins, ps, ms) && KeepsSupplying(ps, ms) && cs(n).state != Init && Pending(read, ms(n))
    ensures n <= m <= n + 513 * BeatBound(t) && Taken(read, ps(m), ms(m), Accepts(cs(m)))
    ensures t == AtMegahertz(100) ==> m <= n + 18981
  {
    SanityHolds(t, cs, ins, ps, ms, n);
    if BeatsBefore(read, ps(n)) < 512 { OneBeatLess(BeatBound(t), BeatsBefore(read, ps(n)), 512); }
    m := AddressIsTaken(t, cs, ins, ps, ms, read, n);
    InstantiatedAcceptance();
  }

  // ----- Taking turns -----

  /** No request of the side without priority is held. */
  predicate HoldsFairly(p: Port) {
    !p.b.rd && !p.b.wr ==> !(p.b.prio && p.holdRd) && !(!p.b.prio && p.holdWr)
  }

  /** With addresses on both sides the one with priority is taken, and the
      priority changes sides exactly then. */
  lemma PriorityDecides(p: Port, a: Master, r: Ram)
    requires Sane(p) && Holding(p, a) && Proper(p, a, r.accept) && (Pushes(p, a, r.accept) <==> r.accept)
    requires a.ar.Addr? && a.aw.Addr? && HoldsFairly(p)
    ensures ArTaken(p, a, r.accept) ==> !p.b.prio
    ensures AwTaken(p, a, r.accept) ==> p.b.prio
    ensures HoldsFairly(PortStep(p, a, r))
    ensures PortStep(p, a, r).b.prio != p.b.prio <==> ArTaken(p, a, r.accept) || AwTaken(p, a, r.accept)
  {
    OneSideAtATime(p, a);
  }

  /** An address is taken on some side. */
  predicate Takes(cs: nat -> Core, ps: nat -> Port, ms: nat -> Master, n: nat) {
    ArTaken(ps(n), ms(n), Accepts(cs(n))) || AwTaken(ps(n), ms(n), Accepts(cs(n)))
  }

  predicate BothPending(ms: nat -> Master, n: nat) { ms(n).ar.Addr? && ms(n).aw.Addr? }

  lemma {:induction false} PriorityStays(t: Timing, cs: nat -> Core, ins: nat -> Input, ps: nat -> Port,
                                         ms: nat -> Master, i: nat, j: nat)
    requires IsBus(t, cs, ins, ps, ms) && i <= j && HoldsFairly(ps(i))
    requires forall x :: i <= x < j ==> BothPending(ms, x) && !Takes(cs, ps, ms, x)
    ensures HoldsFairly(ps(j)) && ps(j).b.prio == ps(i).b.prio
    decreases j
  {
    if i < j {
      PriorityStays(t, cs, ins, ps, ms, i, j - 1);
      PriorityAt(t, cs, ins, ps, ms, j - 1);
    }
  }

  lemma PriorityAt(t: Timing, cs: nat -> Core, ins: nat -> Input, ps: nat -> Port, ms: nat -> Master, n: nat)
    requires IsBus(t, cs, ins, ps, ms) && HoldsFairly(ps(n)) && BothPending(ms, n)
    ensures ArTaken(ps(n), ms(n), Accepts(cs(n))) ==> !ps(n).b.prio
    ensures AwTaken(ps(n), ms(n), Accepts(cs(n))) ==> ps(n).b.prio
    ensures HoldsFairly(ps(n + 1)) && (ps(n + 1).b.prio != ps(n).b.prio <==> Takes(cs, ps, ms, n))
  {
    SanityHolds(t, cs, ins, ps, ms, n);
    AcceptsRequests(t, cs, ins, ps, ms, n);
    assert LinkedAt(cs, ins, ps, ms, n) && ObligedAt(cs, ps, ms, n);
    PriorityDecides(ps(n), ms(n), Ram(Accepts(cs(n)), cs(n).ack, cs(n).sample));
  }

  /** Nothing is held at reset, nor right after an accepted beat. */
  lemma NothingHeld(t: Timing, cs: nat -> Core, ins: nat -> Input, ps: nat -> Port, ms: nat -> Master, i: nat)
    requires IsBus(t, cs, ins, ps, ms) && (i == 0 || Accepts(cs(i - 1)))
    ensures !ps(i).holdRd && !ps(i).holdWr
  {
    if i > 0 { assert LinkedAt(cs, ins, ps, ms, i - 1); }
  }

  /** While both sides have addresses, from reset or from an accepted beat on,
      two addresses taken one after the other are of different sides. */
  lemma SidesAlternate(t: Timing, cs: nat -> Core, ins: nat -> Input, ps: nat -> Port, ms: nat -> Master,
                       i: nat, j: nat, k: nat)
    requires IsBus(t, cs, ins, ps, ms) && i <= j < k && (i == 0 || Accepts(cs(i - 1)))
    requires forall x :: i <= x <= k ==> BothPending(ms, x)
    requires forall x :: i <= x < k && x != j ==> !Takes(cs, ps, ms, x)
    requires Takes(cs, ps, ms, j) && Takes(cs, ps, ms, k)
    ensures ArTaken(ps(j), ms(j), Accepts(cs(j))) <==> AwTaken(ps(k), ms(k), Accepts(cs(k)))
    ensures AwTaken(ps(j), ms(j), Accepts(cs(j))) <==> ArTaken(ps(k), ms(k), Accepts(cs(k)))
  {
    NothingHeld(t, cs, ins, ps, ms, i);
    PriorityStays(t, cs, ins, ps, ms, i, j);
    PriorityAt(t, cs, ins, ps, ms, j);
    PriorityStays(t, cs, ins, ps, ms, j + 1, k);
    PriorityAt(t, cs, ins, ps, ms, k);
  }
}
