// AXI front end and controller together: requests are held, queues never
// overflow, bursts keep their length, and read data are those of the flat memory
// (vsrc/perip/sdram/core_sdram_axi4/sdram_axi_pmem.v, sdram_axi_core.v, sdram_axi.v).
module SdramAxi {
  import opened SdramCore
  import opened SdramProtocol
  import opened SdramMemory
  import opened SdramRefinement
  import opened SdramPort
  import opened SdramBursts

  // ----- Obligations of the master -----

  /** A valid address or beat stays until it is taken. */
  predicate Patient(p: Port, a: Master, accept: bool, next: Master) {
    && (a.aw.Addr? && !AwTaken(p, a, accept) ==> next.aw == a.aw)
    && (a.ar.Addr? && !ArTaken(p, a, accept) ==> next.ar == a.ar)
    && (a.w.Data? && !WTaken(p, a, accept) ==> next.w == a.w)
  }

  /** Lengths have eight bits, beats write something, and the first beat of a
      write is marked last when it is the only one. */
  predicate Proper(p: Port, a: Master, accept: bool) {
    && (a.aw.Addr? ==> a.aw.len < 256) && (a.ar.Addr? ==> a.ar.len < 256)
    && (a.w.Data? ==> AnyLane(a.w.strb))
    && (AwTaken(p, a, accept) && WTaken(p, a, accept) ==> a.w.last == (a.aw.len == 0))
  }

  // ----- What the port keeps -----

  predicate Sane(p: Port) {
    !(p.b.rd && p.b.wr) && p.b.len < 256 && |p.requests| <= DEPTH && !(p.holdRd && p.holdWr)
  }

  predicate Writing(p: Port, a: Master) { AnyLane(RamRequest(p, a).wr) }

  /** A hold flag means that the request it stands for is being made. */
  predicate Holding(p: Port, a: Master) {
    (p.holdRd ==> ReadActive(p, a)) && (p.holdWr ==> Writing(p, a))
  }

  /** Reads and writes are never served together. */
  lemma OneSideAtATime(p: Port, a: Master)
    requires Sane(p)
    ensures !(ReadActive(p, a) && WriteActive(p, a))
  {
  }

  /** A request that is not accepted is made again, unchanged. */
  lemma RequestStays(p: Port, a: Master, r: Ram, next: Master)
    requires Sane(p) && Holding(p, a) && Proper(p, a, r.accept) && Patient(p, a, r.accept, next)
    requires RamRequest(p, a).Active() && !r.accept
    ensures SameRequest(RamRequest(p, a), RamRequest(PortStep(p, a, r), next))
    ensures Holding(PortStep(p, a, r), next)
  {
    var q := PortStep(p, a, r);
    OneSideAtATime(p, a);
    assert q.b == p.b && |q.requests| <= |p.requests|;
    if ReadActive(p, a) {
      assert q.holdRd && !q.holdWr && ReadActive(q, next) && !WriteActive(q, next);
    } else {
      assert q.holdWr && !q.holdRd && WriteActive(q, next) && !ReadActive(q, next) && next.w == a.w;
    }
  }

  lemma SanityKept(p: Port, a: Master, r: Ram, next: Master)
    requires Sane(p) && Holding(p, a) && Proper(p, a, r.accept) && Patient(p, a, r.accept, next)
    ensures Sane(PortStep(p, a, r)) && Holding(PortStep(p, a, r), next)
  {
    OneSideAtATime(p, a);
    if RamRequest(p, a).Active() && !r.accept { RequestStays(p, a, r, next); }
  }

  // ----- Beats -----

  datatype Beat = Beat(entry: Entry, addr: nat)

  /** n beats of a burst, the first at addr. */
  function Beats(read: bool, id: nat, kind: nat, axlen: nat, addr: nat, n: nat): seq<Beat>
    decreases n
  {
    if n == 0 then []
    else [Beat(Entry(read, n == 1, id), addr)] + Beats(read, id, kind, axlen, NextAddr(addr, kind, axlen), n - 1)
  }

  /** The beats that an accepted address stands for. */
  function Promised(read: bool, b: AddrBeat): seq<Beat>
    requires b.Addr?
  {
    Beats(read, b.id, b.burst, b.len, b.addr, b.len + 1)
  }

  /** A burst of length n + 1 has n + 1 beats, the last of them marked, at the
      addresses of its kind. */
  lemma {:induction false} BeatsOfBurst(read: bool, id: nat, kind: nat, axlen: nat, addr: nat, n: nat)
    ensures |Beats(read, id, kind, axlen, addr, n)| == n
    ensures forall k :: 0 <= k < n ==>
      Beats(read, id, kind, axlen, addr, n)[k] == Beat(Entry(read, k == n - 1, id), BeatAddr(addr, kind, axlen, k))
    decreases n
  {
    if n > 0 {
      BeatsOfBurst(read, id, kind, axlen, NextAddr(addr, kind, axlen), n - 1);
    }
  }

  /** The beats still to come of the burst under way. */
  function Remaining(b: Burst): seq<Beat> {
    if b.rd || b.wr then Beats(b.rd, b.id, b.kind, b.axlen, b.addr, b.len + 1) else []
  }

  function Begun(p: Port, a: Master, accept: bool): seq<Beat> {
    if ArTaken(p, a, accept) then Promised(true, a.ar)
    else if AwTaken(p, a, accept) then Promised(false, a.aw)
    else []
  }

  function Issued(p: Port, a: Master, accept: bool): seq<Beat> {
    if Pushes(p, a, accept) then [Beat(PushedEntry(p, a, accept), RamRequest(p, a).addr)] else []
  }

  lemma ReadBurstBegins(p: Port, a: Master, r: Ram)
    requires Sane(p) && Proper(p, a, r.accept) && ArTaken(p, a, r.accept)
    ensures Promised(true, a.ar) == Issued(p, a, r.accept) + Remaining(PortStep(p, a, r).b) && Remaining(p.b) == []
  {
    OneSideAtATime(p, a);
    assert Pushes(p, a, r.accept) && RamRequest(p, a).addr == a.ar.addr;
  }

  lemma WriteBurstBegins(p: Port, a: Master, r: Ram)
    requires Sane(p) && Proper(p, a, r.accept) && AwTaken(p, a, r.accept)
    ensures Promised(false, a.aw) == Issued(p, a, r.accept) + Remaining(PortStep(p, a, r).b) && Remaining(p.b) == []
  {
    OneSideAtATime(p, a);
    var b := PortStep(p, a, r).b;
    if a.w.Data? {
      assert Pushes(p, a, r.accept) && RamRequest(p, a).addr == a.aw.addr;
      assert b.wr == (a.aw.len != 0) && !b.rd;
    } else {
      assert !Pushes(p, a, r.accept) && Remaining(b) == Promised(false, a.aw);
      assert [] + Remaining(b) == Remaining(b);
    }
  }

  /** An address is taken only when no burst is under way. */
  lemma BurstBegins(p: Port, a: Master, r: Ram)
    requires Sane(p) && Proper(p, a, r.accept) && (ArTaken(p, a, r.accept) || AwTaken(p, a, r.accept))
    ensures Begun(p, a, r.accept) == Issued(p, a, r.accept) + Remaining(PortStep(p, a, r).b) && Remaining(p.b) == []
  {
    if ArTaken(p, a, r.accept) { ReadBurstBegins(p, a, r); } else { WriteBurstBegins(p, a, r); }
  }

  lemma BurstContinues(p: Port, a: Master, r: Ram)
    requires Sane(p) && Proper(p, a, r.accept) && !ArTaken(p, a, r.accept) && !AwTaken(p, a, r.accept)
    ensures Remaining(p.b) == Issued(p, a, r.accept) + Remaining(PortStep(p, a, r).b)
  {
    OneSideAtATime(p, a);
    if Pushes(p, a, r.accept) {
      assert (p.b.rd || p.b.wr) && RamRequest(p, a).addr == p.b.addr;
      assert PushedEntry(p, a, r.accept) == Entry(p.b.rd, p.b.len == 0, p.b.id);
    }
  }

  /** Every cycle: what was outstanding and what begins is what is issued and what
      stays outstanding. */
  lemma BeatsBalance(p: Port, a: Master, r: Ram)
    requires Sane(p) && Proper(p, a, r.accept)
    ensures Remaining(p.b) + Begun(p, a, r.accept) == Issued(p, a, r.accept) + Remaining(PortStep(p, a, r).b)
  {
    if ArTaken(p, a, r.accept) || AwTaken(p, a, r.accept) {
      BurstBegins(p, a, r);
    } else {
      BurstContinues(p, a, r);
      assert Remaining(p.b) + [] == Remaining(p.b);
    }
  }

  // ----- Runs of port and controller -----

  ghost predicate LinkedAt(cs: nat -> Core, ins: nat -> Input, ps: nat -> Port, ms: nat -> Master, n: nat) {
    && ins(n).req == RamRequest(ps(n), ms(n))
    && ps(n + 1) == PortStep(ps(n), ms(n), Ram(Accepts(cs(n)), cs(n).ack, cs(n).sample))
  }

  ghost predicate ObligedAt(cs: nat -> Core, ps: nat -> Port, ms: nat -> Master, n: nat) {
    Proper(ps(n), ms(n), Accepts(cs(n))) && Patient(ps(n), ms(n), Accepts(cs(n)), ms(n + 1))
  }

  /** Controller, port and an obliging master, cycle by cycle. */
  ghost predicate IsBus(t: Timing, cs: nat -> Core, ins: nat -> Input, ps: nat -> Port, ms: nat -> Master) {
    && IsRun(t, cs, ins) && ps(0) == PortReset()
    && (forall n: nat :: LinkedAt(cs, ins, ps, ms, n))
    && (forall n: nat :: ObligedAt(cs, ps, ms, n))
  }

  lemma {:induction false} SanityHolds(t: Timing, cs: nat -> Core, ins: nat -> Input, ps: nat -> Port,
                                       ms: nat -> Master, n: nat)
    requires IsBus(t, cs, ins, ps, ms)
    ensures Sane(ps(n)) && Holding(ps(n), ms(n))
  {
    if n > 0 {
      SanityHolds(t, cs, ins, ps, ms, n - 1);
      assert LinkedAt(cs, ins, ps, ms, n - 1) && ObligedAt(cs, ps, ms, n - 1);
      SanityKept(ps(n - 1), ms(n - 1), Ram(Accepts(cs(n - 1)), cs(n - 1).ack, cs(n - 1).sample), ms(n));
    }
  }

  /** The assumption of the controller is what the port guarantees. */
  lemma PortHoldsRequests(t: Timing, cs: nat -> Core, ins: nat -> Input, ps: nat -> Port, ms: nat -> Master)
    requires IsBus(t, cs, ins, ps, ms)
    ensures RequestsHeld(cs, ins)
  {
    forall n: nat ensures HeldAt(cs, ins, n) {
      SanityHolds(t, cs, ins, ps, ms, n);
      assert LinkedAt(cs, ins, ps, ms, n) && LinkedAt(cs, ins, ps, ms, n + 1) && ObligedAt(cs, ps, ms, n);
      if ins(n).req.Active() && !Accepts(cs(n)) {
        RequestStays(ps(n), ms(n), Ram(Accepts(cs(n)), cs(n).ack, cs(n).sample), ms(n + 1));
      }
    }
  }

  /** The controller accepts only what is requested. */
  lemma AcceptsRequests(t: Timing, cs: nat -> Core, ins: nat -> Input, ps: nat -> Port, ms: nat -> Master, n: nat)
    requires IsBus(t, cs, ins, ps, ms)
    ensures Pushes(ps(n), ms(n), Accepts(cs(n))) <==> Accepts(cs(n))
    ensures Accepts(cs(n)) ==> (cs(n).state == Read <==> ReadActive(ps(n), ms(n)))
  {
    PortHoldsRequests(t, cs, ins, ps, ms);
    ServiceHolds(t, cs, ins, n);
    assert LinkedAt(cs, ins, ps, ms, n);
  }

  // ----- The queues -----

  predicate Balanced(c: Core, p: Port) { |p.requests| == |p.responses| + InFlight(c) }

  /** Both queues after a clock, when neither is asked to take more than it can. */
  lemma QueuesAfter(p: Port, a: Master, r: Ram)
    requires Pushes(p, a, r.accept) <==> r.accept
    requires r.ack ==> |p.responses| < DEPTH
    ensures Bit(Pops(p, a)) <= |p.requests| && Bit(Pops(p, a)) <= |p.responses|
    ensures PortStep(p, a, r).requests
         == p.requests[Bit(Pops(p, a))..] + (if r.accept then [PushedEntry(p, a, r.accept)] else [])
    ensures PortStep(p, a, r).responses == p.responses[Bit(Pops(p, a))..] + (if r.ack then [r.data] else [])
  {
  }

  lemma BalanceKept(t: Timing, c: Core, q: Request, dq: Word, p: Port, a: Master)
    requires Pipelined(c) && Balanced(c, p) && |p.requests| <= DEPTH
    requires Pushes(p, a, Accepts(c)) <==> Accepts(c)
    ensures c.ack ==> |p.responses| < DEPTH
    ensures Balanced(Step(t, c, q, dq), PortStep(p, a, Ram(Accepts(c), c.ack, c.sample)))
  {
    InFlightBalance(t, c, q, dq);
    QueuesAfter(p, a, Ram(Accepts(c), c.ack, c.sample));
  }

  /** Queued responses and requests in flight make up the request queue, so there
      is always room for a response. */
  lemma {:induction false} QueuesBalance(t: Timing, cs: nat -> Core, ins: nat -> Input, ps: nat -> Port,
                                         ms: nat -> Master, n: nat)
    requires IsBus(t, cs, ins, ps, ms)
    ensures Balanced(cs(n), ps(n)) && |ps(n).requests| <= DEPTH
    ensures cs(n).ack ==> |ps(n).responses| < DEPTH
  {
    SanityHolds(t, cs, ins, ps, ms, n);
    if n > 0 {
      var m := n - 1;
      QueuesBalance(t, cs, ins, ps, ms, m);
      AcceptsRequests(t, cs, ins, ps, ms, m);
      PipelineHolds(t, cs, ins, m);
      assert StepsAt(t, cs, ins, m) && LinkedAt(cs, ins, ps, ms, m);
      BalanceKept(t, cs(m), ins(m).req, ins(m).dq, ps(m), ms(m));
    }
  }

  // ----- Bursts -----

  /** Every beat issued before cycle n. */
  function IssuedUntil(cs: nat -> Core, ps: nat -> Port, ms: nat -> Master, n: nat): seq<Beat> {
    if n == 0 then [] else IssuedUntil(cs, ps, ms, n - 1) + Issued(ps(n - 1), ms(n - 1), Accepts(cs(n - 1)))
  }

  /** Every beat promised by the addresses accepted before cycle n. */
  function BegunUntil(cs: nat -> Core, ps: nat -> Port, ms: nat -> Master, n: nat): seq<Beat> {
    if n == 0 then [] else BegunUntil(cs, ps, ms, n - 1) + Begun(ps(n - 1), ms(n - 1), Accepts(cs(n - 1)))
  }

  /** The beats issued are those of the accepted bursts, one burst after the
      other; the rest of the last one is what the burst registers hold. */
  lemma {:induction false} BurstsAreIssued(t: Timing, cs: nat -> Core, ins: nat -> Input, ps: nat -> Port,
                                           ms: nat -> Master, n: nat)
    requires IsBus(t, cs, ins, ps, ms)
    ensures BegunUntil(cs, ps, ms, n) == IssuedUntil(cs, ps, ms, n) + Remaining(ps(n).b)
  {
    if n > 0 {
      BurstsAreIssued(t, cs, ins, ps, ms, n - 1);
      SanityHolds(t, cs, ins, ps, ms, n - 1);
      assert LinkedAt(cs, ins, ps, ms, n - 1) && ObligedAt(cs, ps, ms, n - 1);
      var a, b, c := BegunUntil(cs, ps, ms, n - 1), IssuedUntil(cs, ps, ms, n - 1), Accepts(cs(n - 1));
      BeatsBalance(ps(n - 1), ms(n - 1), Ram(c, cs(n - 1).ack, cs(n - 1).sample));
      Regroup(b, Remaining(ps(n - 1).b), Begun(ps(n - 1), ms(n - 1), c), Issued(ps(n - 1), ms(n - 1), c),
          Remaining(ps(n).b));
    }
  }

  lemma Regroup<T>(a: seq<T>, b: seq<T>, c: seq<T>, d: seq<T>, e: seq<T>)
    requires b + c == d + e
    ensures (a + b) + c == (a + d) + e
  {
    assert (a + b) + c == a + (b + c);
    assert (a + d) + e == a + (d + e);
  }

  // ----- Matching responses with requests -----

  /** The cycles before n in which a request was accepted, in order. */
  function AcceptedUntil(cs: nat -> Core, n: nat): seq<nat> {
    if n == 0 then []
    else if Accepts(cs(n - 1)) then AcceptedUntil(cs, n - 1) + [n - 1]
    else AcceptedUntil(cs, n - 1)
  }

  ghost predicate InOrder(cs: nat -> Core, s: seq<nat>, n: nat) {
    && (forall i, j :: 0 <= i < j < |s| ==> s[i] < s[j])
    && (forall k :: 0 <= k < |s| ==> s[k] < n && Accepts(cs(s[k])))
  }

  lemma {:induction false} AcceptedInOrder(cs: nat -> Core, n: nat)
    ensures InOrder(cs, AcceptedUntil(cs, n), n)
  {
    if n > 0 { AcceptedInOrder(cs, n - 1); }
  }

  lemma {:induction false} AcceptedIsListed(cs: nat -> Core, n: nat, i: nat) returns (k: nat)
    requires i < n && Accepts(cs(i))
    ensures k < |AcceptedUntil(cs, n)| && AcceptedUntil(cs, n)[k] == i
  {
    if i == n - 1 { k := |AcceptedUntil(cs, n - 1)|; } else { k := AcceptedIsListed(cs, n - 1, i); }
  }

  function AckedUntil(cs: nat -> Core, n: nat): nat {
    if n == 0 then 0 else AckedUntil(cs, n - 1) + Bit(cs(n - 1).ack)
  }

  function PoppedUntil(ps: nat -> Port, ms: nat -> Master, n: nat): nat {
    if n == 0 then 0 else PoppedUntil(ps, ms, n - 1) + Bit(Pops(ps(n - 1), ms(n - 1)))
  }

  /** The first acked of the accepted requests s are those acknowledged before cycle n. */
  ghost predicate AckedPrefix(cs: nat -> Core, s: seq<nat>, acked: nat, n: nat) {
    acked <= |s| && forall k :: 0 <= k < |s| ==> (k < acked <==> AckCycle(cs, s[k]) < n)
  }

  /** A request acknowledged in cycle n is the next one. */
  lemma NextIs(t: Timing, cs: nat -> Core, ins: nat -> Input, s: seq<nat>, acked: nat, n: nat, k: nat)
    requires IsRun(t, cs, ins) && AckedPrefix(cs, s, acked, n) && InOrder(cs, s, n)
    requires k < |s| && AckCycle(cs, s[k]) == n
    ensures k == acked
  {
    if k > acked { AcksInOrder(t, cs, ins, s[acked], s[k]); }
  }

  lemma PrefixGrows(t: Timing, cs: nat -> Core, ins: nat -> Input, s: seq<nat>, acked: nat, n: nat)
    requires IsRun(t, cs, ins) && AckedPrefix(cs, s, acked, n) && InOrder(cs, s, n)
    requires cs(n).ack ==> acked < |s| && AckCycle(cs, s[acked]) == n
    ensures AckedPrefix(cs, s, acked + Bit(cs(n).ack), n + 1)
  {
    forall k | 0 <= k < |s| ensures k < acked + Bit(cs(n).ack) <==> AckCycle(cs, s[k]) < n + 1 {
      if AckCycle(cs, s[k]) == n {
        AckArrives(t, cs, ins, s[k]);
        NextIs(t, cs, ins, s, acked, n, k);
      }
    }
  }

  ghost predicate NextAcked(cs: nat -> Core, n: nat) {
    var s, acked := AcceptedUntil(cs, n), AckedUntil(cs, n);
    AckedPrefix(cs, s, acked, n) && (cs(n).ack ==> acked < |s| && AckCycle(cs, s[acked]) == n)
  }

  lemma AckIsNext(t: Timing, cs: nat -> Core, ins: nat -> Input, s: seq<nat>, acked: nat, n: nat)
    requires IsRun(t, cs, ins) && s == AcceptedUntil(cs, n) && AckedPrefix(cs, s, acked, n) && cs(n).ack
    ensures acked < |s| && AckCycle(cs, s[acked]) == n
  {
    var i := AckOwner(t, cs, ins, n);
    var k := AcceptedIsListed(cs, n, i);
    AcceptedInOrder(cs, n);
    NextIs(t, cs, ins, s, acked, n, k);
  }

  lemma PrefixStep(t: Timing, cs: nat -> Core, ins: nat -> Input, n: nat)
    requires IsRun(t, cs, ins) && NextAcked(cs, n)
    ensures AckedPrefix(cs, AcceptedUntil(cs, n + 1), AckedUntil(cs, n + 1), n + 1)
  {
    var s, acked := AcceptedUntil(cs, n), AckedUntil(cs, n);
    AcceptedInOrder(cs, n);
    PrefixGrows(t, cs, ins, s, acked, n);
    assert AckedUntil(cs, n + 1) == acked + Bit(cs(n).ack);
    assert AckCycle(cs, n) >= n + 1;
  }

  /** The acknowledgement of cycle n belongs to the next request in order. */
  lemma {:induction false} NextIsAcked(t: Timing, cs: nat -> Core, ins: nat -> Input, n: nat)
    requires IsRun(t, cs, ins)
    ensures NextAcked(cs, n)
  {
    if n > 0 {
      NextIsAcked(t, cs, ins, n - 1);
      PrefixStep(t, cs, ins, n - 1);
    }
    if cs(n).ack { AckIsNext(t, cs, ins, AcceptedUntil(cs, n), AckedUntil(cs, n), n); }
  }

  // ----- The contents of the queues -----

  function EntryOf(cs: nat -> Core, ps: nat -> Port, ms: nat -> Master, i: nat): Entry {
    PushedEntry(ps(i), ms(i), Accepts(cs(i)))
  }

  /** The word sampled when the request of cycle i is acknowledged. */
  function AnswerTo(cs: nat -> Core, i: nat): Word { cs(AckCycle(cs, i)).sample }

  ghost predicate HoldsEntries(cs: nat -> Core, ps: nat -> Port, ms: nat -> Master, q: seq<Entry>, s: seq<nat>,
                               from: nat) {
    from + |q| == |s| && forall k :: 0 <= k < |q| ==> q[k] == EntryOf(cs, ps, ms, s[from + k])
  }

  ghost predicate HoldsAnswers(cs: nat -> Core, q: seq<Word>, s: seq<nat>, from: nat, to: nat) {
    from + |q| == to <= |s| && forall k :: 0 <= k < |q| ==> q[k] == AnswerTo(cs, s[from + k])
  }

  /** The request queue holds the accepted requests that have not been answered
      on the bus, the response queue the answers of the first of them. */
  ghost predicate QueuesMatch(cs: nat -> Core, ps: nat -> Port, ms: nat -> Master, n: nat) {
    var s, popped := AcceptedUntil(cs, n), PoppedUntil(ps, ms, n);
    && HoldsEntries(cs, ps, ms, ps(n).requests, s, popped)
    && HoldsAnswers(cs, ps(n).responses, s, popped, AckedUntil(cs, n))
  }

  lemma EntriesMoveOn(cs: nat -> Core, ps: nat -> Port, ms: nat -> Master, q: seq<Entry>, s: seq<nat>, from: nat,
                      pop: nat, more: seq<nat>)
    requires HoldsEntries(cs, ps, ms, q, s, from) && pop <= |q| && |more| <= 1
    ensures HoldsEntries(cs, ps, ms, q[pop..] + (if more == [] then [] else [EntryOf(cs, ps, ms, more[0])]),
            s + more, from + pop)
  {
  }

  lemma AnswersMoveOn(cs: nat -> Core, q: seq<Word>, s: seq<nat>, from: nat, to: nat, pop: nat, ack: bool,
                      more: seq<nat>)
    requires HoldsAnswers(cs, q, s, from, to) && pop <= |q| && (ack ==> to < |s|)
    ensures HoldsAnswers(cs, q[pop..] + (if ack then [AnswerTo(cs, s[to])] else []), s + more, from + pop,
            to + Bit(ack))
  {
  }

  lemma EntriesMatchOn(cs: nat -> Core, ps: nat -> Port, ms: nat -> Master, n: nat)
    requires HoldsEntries(cs, ps, ms, ps(n).requests, AcceptedUntil(cs, n), PoppedUntil(ps, ms, n))
    requires var pop := Bit(Pops(ps(n), ms(n)));
             && pop <= |ps(n).requests|
             && ps(n + 1).requests == ps(n).requests[pop..] + if Accepts(cs(n)) then [EntryOf(cs, ps, ms, n)] else []
    ensures HoldsEntries(cs, ps, ms, ps(n + 1).requests, AcceptedUntil(cs, n + 1), PoppedUntil(ps, ms, n + 1))
  {
    var more := if Accepts(cs(n)) then [n] else [];
    assert AcceptedUntil(cs, n + 1) == AcceptedUntil(cs, n) + more;
    EntriesMoveOn(cs, ps, ms, ps(n).requests, AcceptedUntil(cs, n), PoppedUntil(ps, ms, n), Bit(Pops(ps(n), ms(n))),
        more);
  }

  lemma AnswersMatchOn(cs: nat -> Core, ps: nat -> Port, ms: nat -> Master, n: nat)
    requires HoldsAnswers(cs, ps(n).responses, AcceptedUntil(cs, n), PoppedUntil(ps, ms, n), AckedUntil(cs, n))
    requires var pop := Bit(Pops(ps(n), ms(n)));
             && pop <= |ps(n).responses| && NextAcked(cs, n)
             && ps(n + 1).responses == ps(n).responses[pop..] + if cs(n).ack then [cs(n).sample] else []
    ensures HoldsAnswers(cs, ps(n + 1).responses, AcceptedUntil(cs, n + 1), PoppedUntil(ps, ms, n + 1),
            AckedUntil(cs, n + 1))
  {
    var more := if Accepts(cs(n)) then [n] else [];
    assert AcceptedUntil(cs, n + 1) == AcceptedUntil(cs, n) + more;
    assert PoppedUntil(ps, ms, n + 1) == PoppedUntil(ps, ms, n) + Bit(Pops(ps(n), ms(n)));
    assert AckedUntil(cs, n + 1) == AckedUntil(cs, n) + Bit(cs(n).ack);
    AnswersMoveOn(cs, ps(n).responses, AcceptedUntil(cs, n), PoppedUntil(ps, ms, n), AckedUntil(cs, n),
                  Bit(Pops(ps(n), ms(n))), cs(n).ack, more);
  }

  /** There is room, and the answer belongs to the next request. */
  lemma QueuesStep(t: Timing, cs: nat -> Core, ins: nat -> Input, ps: nat -> Port, ms: nat -> Master, n: nat)
    requires IsBus(t, cs, ins, ps, ms) && QueuesMatch(cs, ps, ms, n)
    ensures QueuesMatch(cs, ps, ms, n + 1)
  {
    assert LinkedAt(cs, ins, ps, ms, n);
    AcceptsRequests(t, cs, ins, ps, ms, n);
    QueuesBalance(t, cs, ins, ps, ms, n);
    QueuesAfter(ps(n), ms(n), Ram(Accepts(cs(n)), cs(n).ack, cs(n).sample));
    NextIsAcked(t, cs, ins, n);
    EntriesMatchOn(cs, ps, ms, n);
    AnswersMatchOn(cs, ps, ms, n);
  }

  lemma {:induction false} QueuesAlwaysMatch(t: Timing, cs: nat -> Core, ins: nat -> Input, ps: nat -> Port,
                                             ms: nat -> Master, n: nat)
    requires IsBus(t, cs, ins, ps, ms)
    ensures QueuesMatch(cs, ps, ms, n)
  {
    if n > 0 {
      QueuesAlwaysMatch(t, cs, ins, ps, ms, n - 1);
      QueuesStep(t, cs, ins, ps, ms, n - 1);
    }
  }

  /** Every beat on the read channel answers the next request in order: it bears
      that request's identifier and last mark, and the word the flat memory held
      at its address when it was accepted. */
  lemma ReadChannelIsCorrect(t: Timing, cs: nat -> Core, ins: nat -> Input, ps: nat -> Port, ms: nat -> Master,
                             chips: nat -> Chip, f: Flat, n: nat) returns (i: nat)
    requires IsBus(t, cs, ins, ps, ms) && IsSystem(t, cs, ins, chips, f) && RValid(ps(n))
    ensures PoppedUntil(ps, ms, n) < |AcceptedUntil(cs, n)| && i == AcceptedUntil(cs, n)[PoppedUntil(ps, ms, n)]
    ensures cs(i).state == Read && ps(n).requests[0] == EntryOf(cs, ps, ms, i)
    ensures ps(n).responses[0] == FlatWord(FlatAt(f, cs, ins, i), ins(i).req.addr)
  {
    QueuesAlwaysMatch(t, cs, ins, ps, ms, n);
    i := AcceptedUntil(cs, n)[PoppedUntil(ps, ms, n) + 0];
    assert ps(n).responses[0] == AnswerTo(cs, i);
    AcceptedInOrder(cs, n);
    EntryTellsKind(t, cs, ins, ps, ms, i);
    ReadsReturnMemory(t, cs, ins, chips, f, i);
  }

  lemma EntryTellsKind(t: Timing, cs: nat -> Core, ins: nat -> Input, ps: nat -> Port, ms: nat -> Master, i: nat)
    requires IsBus(t, cs, ins, ps, ms) && Accepts(cs(i))
    ensures EntryOf(cs, ps, ms, i).read <==> cs(i).state == Read
  {
    AcceptsRequests(t, cs, ins, ps, ms, i);
    SanityHolds(t, cs, ins, ps, ms, i);
    OneSideAtATime(ps(i), ms(i));
  }

  // ----- The beats of a burst on the read channel -----

  /** The beats issued are the accepted requests, in order. */
  ghost predicate IssuedMatch(cs: nat -> Core, ins: nat -> Input, ps: nat -> Port, ms: nat -> Master,
                              issued: seq<Beat>, accepted: seq<nat>) {
    && |issued| == |accepted|
    && forall j :: 0 <= j < |accepted| ==> issued[j] == IssuedAt(cs, ins, ps, ms, accepted[j])
  }

  /** A beat is issued exactly when a request is accepted, and it is that request. */
  ghost predicate IssuesAccepted(cs: nat -> Core, ins: nat -> Input, ps: nat -> Port, ms: nat -> Master, n: nat) {
    Issued(ps(n), ms(n), Accepts(cs(n))) == if Accepts(cs(n)) then [IssuedAt(cs, ins, ps, ms, n)] else []
  }

  lemma RequestIsIssued(t: Timing, cs: nat -> Core, ins: nat -> Input, ps: nat -> Port, ms: nat -> Master, n: nat)
    requires IsBus(t, cs, ins, ps, ms)
    ensures IssuesAccepted(cs, ins, ps, ms, n)
  {
    AcceptsRequests(t, cs, ins, ps, ms, n);
    assert LinkedAt(cs, ins, ps, ms, n);
  }

  lemma IssuedMatchOn(cs: nat -> Core, ins: nat -> Input, ps: nat -> Port, ms: nat -> Master, n: nat)
    requires IssuedMatch(cs, ins, ps, ms, IssuedUntil(cs, ps, ms, n), AcceptedUntil(cs, n))
    requires IssuesAccepted(cs, ins, ps, ms, n)
    ensures IssuedMatch(cs, ins, ps, ms, IssuedUntil(cs, ps, ms, n + 1), AcceptedUntil(cs, n + 1))
  {
    assert AcceptedUntil(cs, n + 1) == AcceptedUntil(cs, n) + if Accepts(cs(n)) then [n] else [];
  }

  lemma {:induction false} IssuedAreAccepted(t: Timing, cs: nat -> Core, ins: nat -> Input, ps: nat -> Port,
                                             ms: nat -> Master, n: nat)
    requires IsBus(t, cs, ins, ps, ms)
    ensures IssuedMatch(cs, ins, ps, ms, IssuedUntil(cs, ps, ms, n), AcceptedUntil(cs, n))
  {
    if n > 0 {
      IssuedAreAccepted(t, cs, ins, ps, ms, n - 1);
      RequestIsIssued(t, cs, ins, ps, ms, n - 1);
      IssuedMatchOn(cs, ins, ps, ms, n - 1);
    }
  }

  function IssuedAt(cs: nat -> Core, ins: nat -> Input, ps: nat -> Port, ms: nat -> Master, i: nat): Beat {
    Beat(EntryOf(cs, ps, ms, i), ins(i).req.addr)
  }

  /** The j-th beat promised before cycle n belongs to the address accepted in
      cycle b, as its k-th beat. */
  ghost predicate BeatOf(cs: nat -> Core, ps: nat -> Port, ms: nat -> Master, n: nat, j: nat, b: nat, k: nat) {
    && b < n && j == |BegunUntil(cs, ps, ms, b)| + k
    && k < |Begun(ps(b), ms(b), Accepts(cs(b)))|
    && j < |BegunUntil(cs, ps, ms, n)| && BegunUntil(cs, ps, ms, n)[j] == Begun(ps(b), ms(b), Accepts(cs(b)))[k]
  }

  lemma {:induction false} BeatHasBurst(cs: nat -> Core, ps: nat -> Port, ms: nat -> Master, n: nat, j: nat)
    returns (b: nat, k: nat)
    requires j < |BegunUntil(cs, ps, ms, n)|
    ensures BeatOf(cs, ps, ms, n, j, b, k)
  {
    var before := BegunUntil(cs, ps, ms, n - 1);
    if j < |before| {
      b, k := BeatHasBurst(cs, ps, ms, n - 1, j);
    } else {
      b, k := n - 1, j - |before|;
    }
  }

  /** A beat on the read channel: it is the k-th one of a read burst whose address
      was accepted, counted over everything taken from the queues; it bears the
      burst's identifier, the last mark on the final beat only, and the word the
      flat memory held at the burst's k-th address when that beat was accepted. */
  lemma ReadBeatIsCorrect(t: Timing, cs: nat -> Core, ins: nat -> Input, ps: nat -> Port, ms: nat -> Master,
                          chips: nat -> Chip, f: Flat, n: nat) returns (b: nat, k: nat, i: nat)
    requires IsBus(t, cs, ins, ps, ms) && IsSystem(t, cs, ins, chips, f) && RValid(ps(n))
    ensures b <= i < n && ArTaken(ps(b), ms(b), Accepts(cs(b))) && k <= ms(b).ar.len
    ensures PoppedUntil(ps, ms, n) == |BegunUntil(cs, ps, ms, b)| + k
    ensures ps(n).requests[0] == Entry(true, k == ms(b).ar.len, ms(b).ar.id)
    ensures Accepts(cs(i)) && ins(i).req.addr == BeatAddr(ms(b).ar.addr, ms(b).ar.burst, ms(b).ar.len, k)
    ensures ps(n).responses[0]
         == FlatWord(FlatAt(f, cs, ins, i), BeatAddr(ms(b).ar.addr, ms(b).ar.burst, ms(b).ar.len, k))
  {
    var j := PoppedUntil(ps, ms, n);
    i := ReadChannelIsCorrect(t, cs, ins, ps, ms, chips, f, n);
    b, k := BeatInBurst(t, cs, ins, ps, ms, n, j);
    EntryTellsKind(t, cs, ins, ps, ms, i);
    SanityHolds(t, cs, ins, ps, ms, b);
    KindOfBurst(ps(b), ms(b), Accepts(cs(b)), k);
    AcceptedInOrder(cs, n);
  }

  /** A write beat is taken exactly when the controller accepts a write, and what
      is written are its data and strobes. */
  lemma WriteDataAreTaken(t: Timing, cs: nat -> Core, ins: nat -> Input, ps: nat -> Port, ms: nat -> Master, i: nat)
    requires IsBus(t, cs, ins, ps, ms)
    ensures WTaken(ps(i), ms(i), Accepts(cs(i))) <==> cs(i).state == Write0
    ensures cs(i).state == Write0 ==>
      ms(i).w.Data? && ins(i).req.data == ms(i).w.data && ins(i).req.wr == ms(i).w.strb
  {
    SanityHolds(t, cs, ins, ps, ms, i);
    OneSideAtATime(ps(i), ms(i));
    AcceptsRequests(t, cs, ins, ps, ms, i);
    assert LinkedAt(cs, ins, ps, ms, i) && ObligedAt(cs, ps, ms, i);
  }

  /** A write the controller accepts: it is the k-th beat of a write burst whose
      address was accepted, counted over all accepted beats; the data and strobes
      of the write beat taken in that cycle go to the burst's k-th address. */
  lemma WriteBeatIsCorrect(t: Timing, cs: nat -> Core, ins: nat -> Input, ps: nat -> Port, ms: nat -> Master, i: nat)
    returns (b: nat, k: nat)
    requires IsBus(t, cs, ins, ps, ms) && cs(i).state == Write0
    ensures b <= i && AwTaken(ps(b), ms(b), Accepts(cs(b))) && k <= ms(b).aw.len
    ensures |AcceptedUntil(cs, i)| == |BegunUntil(cs, ps, ms, b)| + k
    ensures WTaken(ps(i), ms(i), Accepts(cs(i)))
    ensures ins(i).req.data == ms(i).w.data && ins(i).req.wr == ms(i).w.strb
    ensures ins(i).req.addr == BeatAddr(ms(b).aw.addr, ms(b).aw.burst, ms(b).aw.len, k)
  {
    WriteDataAreTaken(t, cs, ins, ps, ms, i);
    assert AcceptedUntil(cs, i + 1) == AcceptedUntil(cs, i) + [i];
    b, k := BeatInBurst(t, cs, ins, ps, ms, i + 1, |AcceptedUntil(cs, i)|);
    EntryTellsKind(t, cs, ins, ps, ms, i);
    SanityHolds(t, cs, ins, ps, ms, b);
    KindOfBurst(ps(b), ms(b), Accepts(cs(b)), k);
  }

  /** The j-th accepted request is a beat of an address accepted by then. */
  lemma BeatInBurst(t: Timing, cs: nat -> Core, ins: nat -> Input, ps: nat -> Port, ms: nat -> Master, n: nat, j: nat)
    returns (b: nat, k: nat)
    requires IsBus(t, cs, ins, ps, ms) && j < |AcceptedUntil(cs, n)|
    ensures var i := AcceptedUntil(cs, n)[j];
            && b <= i && j == |BegunUntil(cs, ps, ms, b)| + k && k < |Begun(ps(b), ms(b), Accepts(cs(b)))|
            && IssuedAt(cs, ins, ps, ms, i) == Begun(ps(b), ms(b), Accepts(cs(b)))[k]
  {
    AcceptedIsBegun(t, cs, ins, ps, ms, n, j);
    b, k := BeatHasBurst(cs, ps, ms, AcceptedUntil(cs, n)[j] + 1, j);
  }

  lemma AcceptedIsBegun(t: Timing, cs: nat -> Core, ins: nat -> Input, ps: nat -> Port, ms: nat -> Master, n: nat,
                        j: nat)
    requires IsBus(t, cs, ins, ps, ms) && j < |AcceptedUntil(cs, n)|
    ensures var i := AcceptedUntil(cs, n)[j];
            j < |BegunUntil(cs, ps, ms, i + 1)| && BegunUntil(cs, ps, ms, i + 1)[j] == IssuedAt(cs, ins, ps, ms, i)
  {
    AcceptedPrefix(cs, n, j);
    BegunFront(t, cs, ins, ps, ms, AcceptedUntil(cs, n)[j] + 1, j);
  }

  lemma BegunFront(t: Timing, cs: nat -> Core, ins: nat -> Input, ps: nat -> Port, ms: nat -> Master, m: nat, j: nat)
    requires IsBus(t, cs, ins, ps, ms) && j < |AcceptedUntil(cs, m)|
    ensures j < |BegunUntil(cs, ps, ms, m)|
    ensures BegunUntil(cs, ps, ms, m)[j] == IssuedAt(cs, ins, ps, ms, AcceptedUntil(cs, m)[j])
  {
    var (issued, accepted) := (IssuedUntil(cs, ps, ms, m), AcceptedUntil(cs, m));
    BurstsAreIssued(t, cs, ins, ps, ms, m);
    IssuedAreAccepted(t, cs, ins, ps, ms, m);
    FrontAt(cs, ins, ps, ms, BegunUntil(cs, ps, ms, m), issued, Remaining(ps(m).b), accepted, j);
  }

  lemma FrontAt(cs: nat -> Core, ins: nat -> Input, ps: nat -> Port, ms: nat -> Master, begun: seq<Beat>,
                issued: seq<Beat>, remaining: seq<Beat>, accepted: seq<nat>, j: nat)
    requires begun == issued + remaining && j < |accepted| && IssuedMatch(cs, ins, ps, ms, issued, accepted)
    ensures j < |begun| && begun[j] == IssuedAt(cs, ins, ps, ms, accepted[j])
  {
  }

  /** The requests accepted up to the j-th one. */
  lemma {:induction false} AcceptedPrefix(cs: nat -> Core, n: nat, j: nat)
    requires j < |AcceptedUntil(cs, n)|
    ensures var i := AcceptedUntil(cs, n)[j]; |AcceptedUntil(cs, i + 1)| == j + 1 && AcceptedUntil(cs, i + 1)[j] == i
  {
    if n > 0 && j < |AcceptedUntil(cs, n - 1)| { AcceptedPrefix(cs, n - 1, j); }
  }

  /** The k-th beat of a burst that begins, by its kind. */
  lemma KindOfBurst(p: Port, a: Master, accept: bool, k: nat)
    requires Sane(p) && k < |Begun(p, a, accept)|
    ensures var (beat, read) := (Begun(p, a, accept)[k], Begun(p, a, accept)[k].entry.read);
            if read then
              && ArTaken(p, a, accept) && k <= a.ar.len
              && beat == Beat(Entry(true, k == a.ar.len, a.ar.id), BeatAddr(a.ar.addr, a.ar.burst, a.ar.len, k))
            else
              && AwTaken(p, a, accept) && k <= a.aw.len
              && beat == Beat(Entry(false, k == a.aw.len, a.aw.id), BeatAddr(a.aw.addr, a.aw.burst, a.aw.len, k))
  {
    if ArTaken(p, a, accept) {
      BeatsOfBurst(true, a.ar.id, a.ar.burst, a.ar.len, a.ar.addr, a.ar.len + 1);
    } else if AwTaken(p, a, accept) {
      BeatsOfBurst(false, a.aw.id, a.aw.burst, a.aw.len, a.aw.addr, a.aw.len + 1);
    }
  }

  // ----- One response for each read beat and for each write burst -----

  function EntriesOf(beats: seq<Beat>): seq<Entry> { seq(|beats|, k requires 0 <= k < |beats| => beats[k].entry) }

  /** The entries answered on the read channel, each of them, or on the write
      response channel, where only the last beat of a burst is. */
  function Shown(read: bool, es: seq<Entry>): seq<Entry> {
    if es == [] then []
    else (if es[0].read == read && (read || es[0].last) then [es[0]] else []) + Shown(read, es[1..])
  }

  lemma {:induction false} ShownAppend(read: bool, a: seq<Entry>, b: seq<Entry>)
    ensures Shown(read, a + b) == Shown(read, a) + Shown(read, b)
  {
    if a == [] {
      assert a + b == b;
    } else {
      assert (a + b)[1..] == a[1..] + b;
      ShownAppend(read, a[1..], b);
    }
  }

  lemma ShownBeatsAppend(read: bool, a: seq<Beat>, b: seq<Beat>)
    ensures Shown(read, EntriesOf(a + b)) == Shown(read, EntriesOf(a)) + Shown(read, EntriesOf(b))
  {
    assert EntriesOf(a + b) == EntriesOf(a) + EntriesOf(b);
    ShownAppend(read, EntriesOf(a), EntriesOf(b));
  }

  /** A response is taken on one of the channels. */
  predicate Sends(read: bool, p: Port, a: Master) {
    if read then RValid(p) && a.rready else BValid(p) && a.bready
  }

  /** The entries answered on a channel before cycle n. */
  function SentUntil(read: bool, ps: nat -> Port, ms: nat -> Master, n: nat): seq<Entry> {
    if n == 0 then []
    else SentUntil(read, ps, ms, n - 1) + (if Sends(read, ps(n - 1), ms(n - 1)) then [ps(n - 1).requests[0]] else [])
  }

  /** What leaves the request queue is what is answered. */
  lemma HeadIsSent(read: bool, p: Port, a: Master)
    ensures Bit(Pops(p, a)) <= |p.requests|
    ensures Shown(read, p.requests)
         == (if Sends(read, p, a) then [p.requests[0]] else []) + Shown(read, p.requests[Bit(Pops(p, a))..])
  {
    assert p.requests[0..] == p.requests;
  }

  /** One cycle: what is promised newly, answered, queued and still to be issued. */
  lemma ResponsesStep(read: bool, p: Port, a: Master, r: Ram)
    requires Sane(p) && Proper(p, a, r.accept) && (Pushes(p, a, r.accept) <==> r.accept)
    requires r.ack ==> |p.responses| < DEPTH
    ensures var q := PortStep(p, a, r);
            Shown(read, p.requests) + Shown(read, EntriesOf(Remaining(p.b)))
            + Shown(read, EntriesOf(Begun(p, a, r.accept)))
            == (if Sends(read, p, a) then [p.requests[0]] else []) + Shown(read, q.requests)
               + Shown(read, EntriesOf(Remaining(q.b)))
  {
    var q, pop, issued := PortStep(p, a, r), Bit(Pops(p, a)), Issued(p, a, r.accept);
    QueuesAfter(p, a, r);
    HeadIsSent(read, p, a);
    assert q.requests == p.requests[pop..] + EntriesOf(issued);
    ShownAppend(read, p.requests[pop..], EntriesOf(issued));
    BeatsBalance(p, a, r);
    ShownBeatsAppend(read, Remaining(p.b), Begun(p, a, r.accept));
    ShownBeatsAppend(read, issued, Remaining(q.b));
    Resplit(if Sends(read, p, a) then [p.requests[0]] else [], Shown(read, p.requests[pop..]),
            Shown(read, EntriesOf(Remaining(p.b))), Shown(read, EntriesOf(Begun(p, a, r.accept))),
            Shown(read, EntriesOf(issued)), Shown(read, EntriesOf(Remaining(q.b))));
  }

  lemma Resplit<T>(a: seq<T>, b: seq<T>, c: seq<T>, d: seq<T>, e: seq<T>, f: seq<T>)
    requires c + d == e + f
    ensures (a + b) + c + d == a + (b + e) + f
  {
    assert (a + b) + c + d == a + b + (c + d);
    assert a + (b + e) + f == a + b + (e + f);
  }

  /** On either channel, the responses promised by the addresses accepted so far
      are those already given, in the same order, then those queued, then those
      of beats not yet issued. */
  lemma {:induction false} ResponsesBalance(t: Timing, cs: nat -> Core, ins: nat -> Input, ps: nat -> Port,
                                            ms: nat -> Master,
                                            read: bool, n: nat)
    requires IsBus(t, cs, ins, ps, ms)
    ensures Shown(read, EntriesOf(BegunUntil(cs, ps, ms, n)))
         == SentUntil(read, ps, ms, n) + Shown(read, ps(n).requests) + Shown(read, EntriesOf(Remaining(ps(n).b)))
  {
    if n > 0 {
      var m := n - 1;
      ResponsesBalance(t, cs, ins, ps, ms, read, m);
      SanityHolds(t, cs, ins, ps, ms, m);
      QueuesBalance(t, cs, ins, ps, ms, m);
      AcceptsRequests(t, cs, ins, ps, ms, m);
      assert LinkedAt(cs, ins, ps, ms, m) && ObligedAt(cs, ps, ms, m);
      ResponsesStep(read, ps(m), ms(m), Ram(Accepts(cs(m)), cs(m).ack, cs(m).sample));
      ShownBeatsAppend(read, BegunUntil(cs, ps, ms, m), Begun(ps(m), ms(m), Accepts(cs(m))));
      Chain(SentUntil(read, ps, ms, m), Shown(read, ps(m).requests), Shown(read, EntriesOf(Remaining(ps(m).b))),
            Shown(read, EntriesOf(Begun(ps(m), ms(m), Accepts(cs(m))))),
            if Sends(read, ps(m), ms(m)) then [ps(m).requests[0]] else [],
            Shown(read, ps(n).requests), Shown(read, EntriesOf(Remaining(ps(n).b))));
    }
  }

  lemma Chain<T>(s: seq<T>, a: seq<T>, b: seq<T>, c: seq<T>, x: seq<T>, y: seq<T>, z: seq<T>)
    requires a + b + c == x + y + z
    ensures (s + a + b) + c == (s + x) + y + z
  {
    assert (s + a + b) + c == s + (a + b + c);
    assert (s + x) + y + z == s + (x + y + z);
  }

  /** The responses due for the write addresses accepted before cycle n: one for
      each, with its identifier. */
  function WritesDue(cs: nat -> Core, ps: nat -> Port, ms: nat -> Master, n: nat): seq<Entry> {
    if n == 0 then []
    else
      WritesDue(cs, ps, ms, n - 1)
      + if AwTaken(ps(n - 1), ms(n - 1), Accepts(cs(n - 1))) then [Entry(false, true, ms(n - 1).aw.id)] else []
  }

  lemma ShownOfOne(b: Beat)
    ensures Shown(false, EntriesOf([b])) == if !b.entry.read && b.entry.last then [b.entry] else []
  {
    assert EntriesOf([b]) == [b.entry] && [b.entry][1..] == [];
  }

  lemma {:induction false} ShownOfBurst(read: bool, id: nat, kind: nat, axlen: nat, addr: nat, n: nat)
    ensures Shown(false, EntriesOf(Beats(read, id, kind, axlen, addr, n)))
         == if !read && n > 0 then [Entry(false, true, id)] else []
    decreases n
  {
    if n > 0 {
      var (first, rest) := (Beat(Entry(read, n == 1, id), addr),
          Beats(read, id, kind, axlen, NextAddr(addr, kind, axlen), n - 1));
      ShownOfBurst(read, id, kind, axlen, NextAddr(addr, kind, axlen), n - 1);
      assert Beats(read, id, kind, axlen, addr, n) == [first] + rest;
      ShownBeatsAppend(false, [first], rest);
      ShownOfOne(first);
    }
  }

  lemma {:induction false} DueIsShown(t: Timing, cs: nat -> Core, ins: nat -> Input, ps: nat -> Port,
                                      ms: nat -> Master, n: nat)
    requires IsBus(t, cs, ins, ps, ms)
    ensures Shown(false, EntriesOf(BegunUntil(cs, ps, ms, n))) == WritesDue(cs, ps, ms, n)
  {
    if n > 0 {
      var p, a, accept := ps(n - 1), ms(n - 1), Accepts(cs(n - 1));
      DueIsShown(t, cs, ins, ps, ms, n - 1);
      SanityHolds(t, cs, ins, ps, ms, n - 1);
      DueBegins(p, a, accept);
      ShownBeatsAppend(false, BegunUntil(cs, ps, ms, n - 1), Begun(p, a, accept));
    }
  }

  lemma DueBegins(p: Port, a: Master, accept: bool)
    requires Sane(p)
    ensures Shown(false, EntriesOf(Begun(p, a, accept))) ==
            if AwTaken(p, a, accept) then [Entry(false, true, a.aw.id)] else []
  {
    OneSideAtATime(p, a);
    if ArTaken(p, a, accept) {
      ShownOfBurst(true, a.ar.id, a.ar.burst, a.ar.len, a.ar.addr, a.ar.len + 1);
    } else if AwTaken(p, a, accept) {
      ShownOfBurst(false, a.aw.id, a.aw.burst, a.aw.len, a.aw.addr, a.aw.len + 1);
    }
  }

  /** The write responses given before cycle n are those due for the first write
      addresses accepted, in order and one for each. A response that is shown is
      the next one due, and the last beat of its burst has been acknowledged. */
  lemma WriteChannelIsCorrect(t: Timing, cs: nat -> Core, ins: nat -> Input, ps: nat -> Port, ms: nat -> Master, n: nat)
    requires IsBus(t, cs, ins, ps, ms)
    ensures SentUntil(false, ps, ms, n) <= WritesDue(cs, ps, ms, n)
    ensures BValid(ps(n)) ==>
      var sent, popped := |SentUntil(false, ps, ms, n)|, PoppedUntil(ps, ms, n);
      && sent < |WritesDue(cs, ps, ms, n)| && ps(n).requests[0] == WritesDue(cs, ps, ms, n)[sent]
      && popped < |AcceptedUntil(cs, n)| && cs(AcceptedUntil(cs, n)[popped]).state == Write0
      && AckCycle(cs, AcceptedUntil(cs, n)[popped]) < n
  {
    ResponsesBalance(t, cs, ins, ps, ms, false, n);
    DueIsShown(t, cs, ins, ps, ms, n);
    if BValid(ps(n)) {
      assert Shown(false, ps(n).requests)[0] == ps(n).requests[0];
      LastBeatIsAcked(t, cs, ins, ps, ms, n);
    }
  }

  lemma LastBeatIsAcked(t: Timing, cs: nat -> Core, ins: nat -> Input, ps: nat -> Port, ms: nat -> Master, n: nat)
    requires IsBus(t, cs, ins, ps, ms) && BValid(ps(n))
    ensures var popped := PoppedUntil(ps, ms, n);
            && popped < |AcceptedUntil(cs, n)| && cs(AcceptedUntil(cs, n)[popped]).state == Write0
            && AckCycle(cs, AcceptedUntil(cs, n)[popped]) < n
  {
    var s, popped := AcceptedUntil(cs, n), PoppedUntil(ps, ms, n);
    QueuesAlwaysMatch(t, cs, ins, ps, ms, n);
    assert ps(n).requests[0] == EntryOf(cs, ps, ms, s[popped + 0]);
    AcceptedInOrder(cs, n);
    EntryTellsKind(t, cs, ins, ps, ms, s[popped]);
    NextIsAcked(t, cs, ins, n);
    assert AckedPrefix(cs, s, AckedUntil(cs, n), n) && popped < AckedUntil(cs, n);
  }
}
