// Every fetch the instruction cache accepts is answered once memory has granted
// and answered the refill, and blocks stay until they are replaced
// (npc_chisel/npc_chisel/src/utils/cache/ICache.scala).
module CacheProgress {
  import opened InstructionCache
  import opened CacheCoherence

  /** A request is held that is not answered in this cycle. */
  predicate Waits(c: Regs) { c.reqValid && !Responds(c) }

  /** The grants and answers still needed before a response. */
  function Needed(c: Regs): nat
    requires c.reqCounter < WORDS && c.respCounter < WORDS
  {
    if !Waits(c) then 0
    else
      match c.state
      case Idle => (if Burstable(c.addr) then 1 else WORDS) + WORDS
      case Read => WORDS - c.reqCounter + (WORDS - c.respCounter)
      case Commit => WORDS - c.respCounter
      case Finish => 0
  }

  /** Memory grants a request or answers in this cycle. */
  predicate MemoryMoves(c: Regs, i: Input) { Launches(c, i) || i.answer.Answer? }

  /** While a request waits, the cache asks memory or words are owed to it. */
  lemma AsksOrIsOwed(c: Cache, mem: Memory, dirty: bool, owed: seq<nat>)
    requires Invariant(c, mem, dirty, owed) && Waits(c.r)
    ensures ToMemory(c.r).BusRequest? || owed != []
    ensures Needed(c.r) > 0
  {
  }

  /** Every grant and every answer brings the response nearer, and nothing takes
      it further away; without either, the cache asks as before. */
  lemma ComesNearer(c: Cache, i: Input, mem: Memory, changes: bool, dirty: bool, owed: seq<nat>)
    requires Invariant(c, mem, dirty, owed) && Obliging(c.r, i, mem, changes, dirty, owed) && Waits(c.r)
    ensures var d := Step(c, i);
            && d.WellFormed() && d.r.reqValid && d.r.addr == c.r.addr
            && (MemoryMoves(c.r, i) ==> Needed(d.r) < Needed(c.r))
            && (!MemoryMoves(c.r, i) ==>
                  Needed(d.r) <= Needed(c.r)
                  && (Waits(d.r) ==> ToMemory(d.r).BusRequest? == ToMemory(c.r).BusRequest?))
  {
    if c.r.state == Idle { NoAnswerYet(c, i, mem, changes, dirty, owed); }
  }

  lemma NoAnswerYet(c: Cache, i: Input, mem: Memory, changes: bool, dirty: bool, owed: seq<nat>)
    requires Invariant(c, mem, dirty, owed) && Obliging(c.r, i, mem, changes, dirty, owed) && c.r.state == Idle
    ensures !i.answer.Answer?
  {
  }

  // ----- Runs -----

  /** Memory that grants what the cache keeps asking for, and answers what it
      owes, within d cycles. */
  ghost predicate Serves(cs: nat -> Cache, ins: nat -> Input, d: nat) {
    forall n: nat :: ServesAt(cs, ins, d, n)
  }

  ghost predicate ServesAt(cs: nat -> Cache, ins: nat -> Input, d: nat, n: nat) {
    && (ToMemory(cs(n).r).BusRequest? ==> exists k :: n <= k <= n + d && ins(k).arReady)
    && (OwedAt(cs, ins, n) != [] ==> exists k :: n <= k <= n + d && ins(k).answer.Answer?)
  }

  /** One waiting cycle of a run. */
  lemma RunComesNearer(cs: nat -> Cache, ins: nat -> Input, mems: nat -> Memory, changes: nat -> bool, n: nat)
    requires IsRun(cs, ins, mems, changes) && Waits(cs(n).r)
    ensures cs(n).WellFormed() && cs(n + 1).WellFormed()
    ensures var (c, d, i) := (cs(n), cs(n + 1), ins(n));
            && d.r.reqValid && d.r.addr == c.r.addr
            && (MemoryMoves(c.r, i) ==> Needed(d.r) < Needed(c.r))
            && (!MemoryMoves(c.r, i) ==>
                  Needed(d.r) <= Needed(c.r)
                  && (Waits(d.r) ==> ToMemory(d.r).BusRequest? == ToMemory(c.r).BusRequest?))
  {
    InvariantHolds(cs, ins, mems, changes, n);
    assert RunsAt(cs, ins, mems, changes, n);
    ComesNearer(cs(n), ins(n), mems(n), changes(n), DirtyAt(ins, changes, n), OwedAt(cs, ins, n));
  }

  /** The request of cycle n is held from there up to cycle m. */
  ghost predicate HeldUntil(cs: nat -> Cache, n: nat, m: nat) {
    n <= m && forall j :: n <= j <= m ==> cs(j).r.reqValid && cs(j).r.addr == cs(n).r.addr
  }

  ghost predicate NearerAt(cs: nat -> Cache, n: nat, m: nat)
    requires cs(n).WellFormed()
  {
    && HeldUntil(cs, n, m) && cs(m).WellFormed()
    && (Waits(cs(m).r) ==> Needed(cs(m).r) < Needed(cs(n).r))
  }

  /** If memory moves in cycle k, for as long as the cache asks as it does in
      cycle n, the response is nearer by the next cycle at the latest. */
  lemma {:induction false} NearerBy(cs: nat -> Cache, ins: nat -> Input, mems: nat -> Memory, changes: nat -> bool,
                                    n: nat, k: nat) returns (m: nat)
    requires IsRun(cs, ins, mems, changes) && Waits(cs(n).r) && n <= k
    requires ins(k).answer.Answer? || (ins(k).arReady && ToMemory(cs(n).r).BusRequest?)
    ensures cs(n).WellFormed() && n < m <= k + 1 && NearerAt(cs, n, m)
    decreases k - n
  {
    RunComesNearer(cs, ins, mems, changes, n);
    if MemoryMoves(cs(n).r, ins(n)) || !Waits(cs(n + 1).r) {
      m := n + 1;
    } else {
      m := NearerBy(cs, ins, mems, changes, n + 1, k);
      assert HeldUntil(cs, n, m);
    }
  }

  /** A waiting request is answered after at most d + 1 cycles for every grant and
      answer it still needs. */
  lemma {:induction false} AnsweredFrom(cs: nat -> Cache, ins: nat -> Input, mems: nat -> Memory,
                                        changes: nat -> bool, d: nat, n: nat) returns (m: nat)
    requires IsRun(cs, ins, mems, changes) && Serves(cs, ins, d) && cs(n).r.reqValid
    ensures cs(n).WellFormed() && n <= m <= n + Needed(cs(n).r) * (d + 1)
    ensures HeldUntil(cs, n, m) && Responds(cs(m).r)
    decreases if cs(n).WellFormed() then Needed(cs(n).r) else 0
  {
    InvariantHolds(cs, ins, mems, changes, n);
    m := n;
    if Waits(cs(n).r) {
      AsksOrIsOwed(cs(n), mems(n), DirtyAt(ins, changes, n), OwedAt(cs, ins, n));
      var k := MemoryMovesBy(cs, ins, d, n);
      var next := NearerBy(cs, ins, mems, changes, n, k);
      var (a, b) := (Needed(cs(n).r), Needed(cs(next).r));
      m := AnsweredFrom(cs, ins, mems, changes, d, next);
      assert b <= a - 1;
      Rounds(a, b, d + 1);
    }
  }

  lemma MemoryMovesBy(cs: nat -> Cache, ins: nat -> Input, d: nat, n: nat) returns (k: nat)
    requires Serves(cs, ins, d) && (ToMemory(cs(n).r).BusRequest? || OwedAt(cs, ins, n) != [])
    ensures n <= k <= n + d && (ins(k).answer.Answer? || (ins(k).arReady && ToMemory(cs(n).r).BusRequest?))
  {
    assert ServesAt(cs, ins, d, n);
    if ToMemory(cs(n).r).BusRequest? {
      k :| n <= k <= n + d && ins(k).arReady;
    } else {
      k :| n <= k <= n + d && ins(k).answer.Answer?;
    }
  }

  lemma Rounds(a: nat, b: nat, d: nat)
    requires b < a
    ensures d + b * d <= a * d
  {
    assert (b + 1) * d <= a * d;
  }

  /** A free cache accepts a fetch in the same cycle. */
  lemma FreeIsReady(cs: nat -> Cache, ins: nat -> Input, mems: nat -> Memory, changes: nat -> bool, n: nat)
    requires IsRun(cs, ins, mems, changes) && !cs(n).r.reqValid
    ensures Ready(cs(n).r)
  {
    InvariantHolds(cs, ins, mems, changes, n);
  }

  /** Every fetch accepted is answered, with the word memory holds at its address,
      at most eight grants and answers of memory later. */
  lemma FetchIsAnswered(cs: nat -> Cache, ins: nat -> Input, mems: nat -> Memory, changes: nat -> bool, d: nat, n: nat)
    returns (m: nat)
    requires IsRun(cs, ins, mems, changes) && Serves(cs, ins, d) && Fetches(cs(n).r, ins(n))
    ensures n < m <= n + 1 + 2 * WORDS * (d + 1)
    ensures HeldUntil(cs, n + 1, m) && cs(n + 1).r.addr == ins(n).fetch.addr
    ensures Responds(cs(m).r) && Response(cs(m).r) == mems(m)(ins(n).fetch.addr / 4)
  {
    InvariantHolds(cs, ins, mems, changes, n);
    assert RunsAt(cs, ins, mems, changes, n);
    m := AnsweredFrom(cs, ins, mems, changes, d, n + 1);
    InvariantHolds(cs, ins, mems, changes, n + 1);
    NeededAtMost(cs(n + 1).r, d);
    EveryResponseIsMemory(cs, ins, mems, changes, m);
  }

  lemma NeededAtMost(c: Regs, d: nat)
    requires c.reqCounter < WORDS && c.respCounter < WORDS
    ensures Needed(c) * (d + 1) <= 2 * WORDS * (d + 1)
  {
    assert Needed(c) <= 2 * WORDS;
  }

  // ----- Blocks stay -----

  /** The set of the address holds its block in way w. */
  predicate Holds(c: Cache, addr: nat, w: nat)
    requires c.WellFormed()
  {
    c.valids[IndexOf(addr)].At(w) && c.info[IndexOf(addr)].Tag(w) == TagOf(addr)
  }

  /** A fetch of a block held is answered in the next cycle, without a request to
      memory. */
  lemma HeldBlockHits(cs: nat -> Cache, ins: nat -> Input, mems: nat -> Memory, changes: nat -> bool, n: nat, w: nat)
    requires IsRun(cs, ins, mems, changes) && Fetches(cs(n).r, ins(n)) && w < WAYS
    requires cs(n + 1).WellFormed() && Holds(cs(n + 1), ins(n).fetch.addr, w)
    ensures Responds(cs(n + 1).r) && ToMemory(cs(n + 1).r) == NoRequest
    ensures Response(cs(n + 1).r) == mems(n + 1)(ins(n).fetch.addr / 4)
  {
    InvariantHolds(cs, ins, mems, changes, n);
    assert RunsAt(cs, ins, mems, changes, n);
    FetchLeavesIdle(cs(n), ins(n), mems(n), DirtyAt(ins, changes, n), OwedAt(cs, ins, n));
    InvariantHolds(cs, ins, mems, changes, n + 1);
    HoldsHits(cs(n + 1), mems(n + 1), DirtyAt(ins, changes, n + 1), OwedAt(cs, ins, n + 1), w);
    EveryResponseIsMemory(cs, ins, mems, changes, n + 1);
  }

  lemma FetchLeavesIdle(c: Cache, i: Input, mem: Memory, dirty: bool, owed: seq<nat>)
    requires Invariant(c, mem, dirty, owed) && Fetches(c.r, i)
    ensures var d := Step(c, i).r; d.state == Idle && d.reqValid && d.addr == i.fetch.addr
  {
  }

  lemma HoldsHits(c: Cache, mem: Memory, dirty: bool, owed: seq<nat>, w: nat)
    requires Invariant(c, mem, dirty, owed) && c.r.state == Idle && c.r.reqValid && w < WAYS && Holds(c, c.r.addr, w)
    ensures Responds(c.r) && ToMemory(c.r) == NoRequest
  {
  }

  /** A completed refill leaves the block in the way it replaced. */
  lemma RefillIsKept(cs: nat -> Cache, ins: nat -> Input, mems: nat -> Memory, changes: nat -> bool, n: nat)
    requires IsRun(cs, ins, mems, changes) && Completes(cs(n).r, ins(n))
    ensures cs(n + 1).WellFormed() && cs(n).r.replaceWay < WAYS && Holds(cs(n + 1), cs(n).r.addr, cs(n).r.replaceWay)
  {
    InvariantHolds(cs, ins, mems, changes, n);
    assert RunsAt(cs, ins, mems, changes, n);
  }

  /** A block held stays until fence.i or the end of a refill of the same set and
      way. */
  lemma BlockStays(cs: nat -> Cache, ins: nat -> Input, mems: nat -> Memory, changes: nat -> bool, n: nat, addr: nat,
                   w: nat)
    requires IsRun(cs, ins, mems, changes) && w < WAYS && cs(n).WellFormed() && Holds(cs(n), addr, w)
    requires !ins(n).fencei
    requires Completes(cs(n).r, ins(n)) ==> IndexOf(cs(n).r.addr) != IndexOf(addr) || cs(n).r.replaceWay != w
    ensures cs(n + 1).WellFormed() && Holds(cs(n + 1), addr, w)
  {
    InvariantHolds(cs, ins, mems, changes, n);
    assert RunsAt(cs, ins, mems, changes, n);
  }
}
