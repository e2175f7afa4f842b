// The instruction cache agrees with plain memory on every run
// (npc_chisel/npc_chisel/src/utils/cache/ICache.scala).
module CacheCoherence {
  import opened InstructionCache

  // ----- Memory and the fetch stage -----

  type Memory = nat -> Word

  function Range(from: nat, to: nat): seq<nat>
    requires from <= to
  {
    seq(to - from, k requires 0 <= k < to - from => from + k)
  }

  /** The words asked for in a cycle, by number. */
  function Asked(c: Regs, i: Input): seq<nat> {
    if Launches(c, i) then Range(ToMemory(c).addr / 4, ToMemory(c).addr / 4 + ToMemory(c).len + 1) else []
  }

  /** The words still to come: answers come in order, after the request. */
  function Waiting(owed: seq<nat>, c: Regs, i: Input): seq<nat> {
    (if i.answer.Answer? && owed != [] then owed[1..] else owed) + Asked(c, i)
  }

  /** What the surroundings promise in a cycle: responses are taken, one word is
      fetched at a time, answers are memory words in the order asked for, and
      memory changes only while nothing is under way; after a change nothing is
      fetched before fence.i. */
  ghost predicate Obliging(c: Regs, i: Input, mem: Memory, changes: bool, dirty: bool, owed: seq<nat>) {
    && (Responds(c) ==> i.taken)
    && (i.fetch.Fetch? ==> i.fetch.len == 0)
    && (i.answer.Answer? ==> owed != [] && i.answer.data == mem(owed[0]))
    && (changes ==> c.state == Idle && !c.reqValid)
    && (dirty || changes ==> !i.fetch.Fetch?)
  }

  ghost predicate SameMemory(a: Memory, b: Memory) { forall k: nat :: a(k) == b(k) }

  // ----- Invariants -----

  predicate Refilling(c: Regs) { c.state == Read || c.state == Commit }

  function BlockWord(addr: nat): nat { WordNumber(TagOf(addr), IndexOf(addr), 0) }

  /** Word k of a set's block in a way is that of memory under the tag. */
  predicate WordMatches(c: Cache, mem: Memory, s: nat, w: nat, tag: nat, k: nat)
    requires c.WellFormed() && s < BLOCKS
  {
    k < WORDS ==> c.Data(w)[s * WORDS + k] == mem(WordNumber(tag, s, k))
  }

  /** The data of a block are those of memory. */
  ghost predicate BlockMatches(c: Cache, mem: Memory, s: nat, w: nat)
    requires c.WellFormed() && s < BLOCKS
  {
    forall k: nat :: WordMatches(c, mem, s, w, c.info[s].Tag(w), k)
  }

  predicate IsTarget(c: Regs, s: nat, w: nat) { Refilling(c) && s == IndexOf(c.addr) && w == c.replaceWay }

  /** Every valid block matches memory, except the one being refilled. */
  ghost predicate Coherent(c: Cache, mem: Memory)
    requires c.WellFormed()
  {
    forall s: nat, w: nat :: s < BLOCKS && w < WAYS && c.valids[s].At(w) && !IsTarget(c.r, s, w) ==>
      BlockMatches(c, mem, s, w)
  }

  /** At most one valid way of a set bears a tag. */
  ghost predicate UniqueTags(c: Cache)
    requires c.WellFormed()
  {
    forall s: nat :: s < BLOCKS && c.valids[s].v0 && c.valids[s].v1 ==> c.info[s].tag0 != c.info[s].tag1
  }

  /** The registered lookup is that of the set of the current request. */
  predicate LookedUp(c: Cache)
    requires c.WellFormed()
  {
    var s := IndexOf(c.r.addr);
    && (c.valids[s].v0 ==> c.r.blockValids.v0 && c.r.infoOut.tag0 == c.info[s].tag0)
    && (c.valids[s].v1 ==> c.r.blockValids.v1 && c.r.infoOut.tag1 == c.info[s].tag1)
  }

  /** A hit on the registered lookup delivers the word asked for, from one way only. */
  ghost predicate HitIsRight(c: Regs, mem: Memory) {
    && !(Hits(c, 0) && Hits(c, 1))
    && (Hits(c, 0) ==> c.out0 == mem(c.addr / 4))
    && (Hits(c, 1) ==> c.out1 == mem(c.addr / 4))
  }

  /** The words asked for and the words arrived. */
  ghost predicate Counted(c: Regs, owed: seq<nat>) {
    match c.state
    case Idle => owed == [] && c.reqCounter == 0 && c.respCounter == 0
    case Read => 1 <= c.reqCounter && c.respCounter <= c.reqCounter < WORDS
        && owed == Range(BlockWord(c.addr) + c.respCounter, BlockWord(c.addr) + c.reqCounter)
    case Commit => c.respCounter < WORDS && owed == Range(BlockWord(c.addr) + c.respCounter, BlockWord(c.addr) + WORDS)
    case Finish => owed == []
  }

  /** The refill so far: the words that have arrived are in place, the word asked
      for is kept, and the other way does not hold the block. */
  ghost predicate Refilled(c: Cache, mem: Memory)
    requires c.WellFormed()
  {
    var s := IndexOf(c.r.addr);
    && (forall k: nat :: k < c.r.respCounter ==> WordMatches(c, mem, s, c.r.replaceWay, TagOf(c.r.addr), k))
    && (OffsetOf(c.r.addr) < c.r.respCounter ==> c.r.inst2Fire == mem(c.r.addr / 4))
    && (c.r.replaceWay == 0 && c.valids[s].v1 ==> c.info[s].tag1 != TagOf(c.r.addr))
    && (c.r.replaceWay == 1 && c.valids[s].v0 ==> c.info[s].tag0 != TagOf(c.r.addr))
  }

  ghost predicate Invariant(c: Cache, mem: Memory, dirty: bool, owed: seq<nat>) {
    && c.WellFormed() && UniqueTags(c)
    && (c.r.state != Idle ==> c.r.reqValid)
    && (c.r.reqValid ==> !dirty && c.r.len == 0)
    && (!dirty ==> Coherent(c, mem))
    && (c.r.state != Finish ==> LookedUp(c))
    && (c.r.reqValid && c.r.state == Idle ==> HitIsRight(c.r, mem))
    && Counted(c.r, owed)
    && (Refilling(c.r) ==> Refilled(c, mem))
    && (c.r.state == Finish ==> c.r.inst2Fire == mem(c.r.addr / 4))
  }

  // ----- The steps -----

  lemma BlockAddress(addr: nat)
    ensures BlockAddr(addr) / 4 == BlockWord(addr)
    ensures addr / 4 == BlockWord(addr) + OffsetOf(addr)
  {
    SlicesName(addr);
    var q := addr / 16;
    assert BlockAddr(addr) == q * 16 && TagOf(addr) == q / 16;
  }

  lemma WordAddress(addr: nat, k: nat)
    ensures (BlockAddr(addr) + k * 4) / 4 == BlockWord(addr) + k
  {
    BlockAddress(addr);
  }

  lemma RangeFacts(a: nat, b: nat, d: nat)
    requires a <= b <= d
    ensures Range(a, b) + Range(b, d) == Range(a, d)
    ensures a < b ==> Range(a, b)[0] == a && Range(a, b)[1..] == Range(a + 1, b)
    ensures Range(a, a) == []
  {
  }

  /** An answer takes the first word away, a request adds some behind the last. */
  lemma RangeMoves(a: nat, b: nat, d: nat, answered: bool)
    requires a <= b <= d && (answered ==> a < b)
    ensures (if answered then Range(a, b)[1..] else Range(a, b)) + Range(b, d) ==
            Range(if answered then a + 1 else a, d)
  {
    RangeFacts(a, b, d);
    if answered { RangeFacts(a + 1, b, d); }
  }

  lemma CountedIdle(c: Cache, i: Input, mem: Memory, changes: bool, dirty: bool, owed: seq<nat>)
    requires Invariant(c, mem, dirty, owed) && Obliging(c.r, i, mem, changes, dirty, owed)
    requires c.r.state == Idle || c.r.state == Finish
    ensures Counted(Step(c, i).r, Waiting(owed, c.r, i))
  {
    BlockAddress(c.r.addr);
    assert Waiting(owed, c.r, i) == Asked(c.r, i);
  }

  lemma WaitingInRead(c: Regs, i: Input, mem: Memory, changes: bool, dirty: bool, owed: seq<nat>)
    requires c.state == Read && Counted(c, owed) && c.len == 0 && Obliging(c, i, mem, changes, dirty, owed)
    ensures i.answer.Answer? ==> c.respCounter < c.reqCounter
    ensures Waiting(owed, c, i) == Range(BlockWord(c.addr) + c.respCounter + (if i.answer.Answer? then 1 else 0),
                                         BlockWord(c.addr) + c.reqCounter + (if Launches(c, i) then 1 else 0))
  {
    var base, n := BlockWord(c.addr), c.reqCounter;
    WordAddress(c.addr, n);
    RangeFacts(base + n, base + n, base + n);
    var to := if Launches(c, i) then n + 1 else n;
    assert Asked(c, i) == Range(base + n, base + to);
    RangeMoves(base + c.respCounter, base + n, base + to, i.answer.Answer?);
  }

  lemma CountedAfterRead(d: Regs, c: Regs, i: Input, mem: Memory, changes: bool, dirty: bool, owed: seq<nat>)
    requires c.state == Read && Counted(c, owed) && c.len == 0 && Obliging(c, i, mem, changes, dirty, owed)
    requires d.addr == c.addr && d.state == StateAfter(c, i)
    requires d.respCounter == (if i.answer.Answer? then (c.respCounter + 1) % WORDS else c.respCounter)
    requires d.reqCounter == (if Launches(c, i) then (c.reqCounter + 1) % WORDS else c.reqCounter)
    ensures Counted(d, Waiting(owed, c, i))
  {
    WaitingInRead(c, i, mem, changes, dirty, owed);
  }

  lemma CountedRead(c: Cache, i: Input, mem: Memory, changes: bool, dirty: bool, owed: seq<nat>)
    requires Invariant(c, mem, dirty, owed) && Obliging(c.r, i, mem, changes, dirty, owed)
    requires c.r.state == Read
    ensures Counted(Step(c, i).r, Waiting(owed, c.r, i))
  {
    CountedAfterRead(Step(c, i).r, c.r, i, mem, changes, dirty, owed);
  }

  lemma CountedAfterCommit(d: Regs, c: Regs, i: Input, owed: seq<nat>)
    requires c.state == Commit && Counted(c, owed) && (i.answer.Answer? ==> owed != [])
    requires d.addr == c.addr && d.state == StateAfter(c, i)
    requires d.respCounter == if i.answer.Answer? then (c.respCounter + 1) % WORDS else c.respCounter
    ensures Counted(d, Waiting(owed, c, i))
  {
    var base := BlockWord(c.addr);
    RangeFacts(base + WORDS, base + WORDS, base + WORDS);
    assert Asked(c, i) == Range(base + WORDS, base + WORDS);
    RangeMoves(base + c.respCounter, base + WORDS, base + WORDS, i.answer.Answer?);
  }

  lemma CountedCommit(c: Cache, i: Input, mem: Memory, changes: bool, dirty: bool, owed: seq<nat>)
    requires Invariant(c, mem, dirty, owed) && Obliging(c.r, i, mem, changes, dirty, owed)
    requires c.r.state == Commit
    ensures Counted(Step(c, i).r, Waiting(owed, c.r, i))
  {
    CountedAfterCommit(Step(c, i).r, c.r, i, owed);
  }

  /** Words are counted on both sides of the bus. */
  lemma CountedStep(c: Cache, i: Input, mem: Memory, changes: bool, dirty: bool, owed: seq<nat>)
    requires Invariant(c, mem, dirty, owed) && Obliging(c.r, i, mem, changes, dirty, owed)
    ensures Counted(Step(c, i).r, Waiting(owed, c.r, i))
  {
    match c.r.state
    case Read => CountedRead(c, i, mem, changes, dirty, owed);
    case Commit => CountedCommit(c, i, mem, changes, dirty, owed);
    case _ => CountedIdle(c, i, mem, changes, dirty, owed);
  }

  lemma UniqueStep(c: Cache, i: Input, mem: Memory, dirty: bool, owed: seq<nat>)
    requires Invariant(c, mem, dirty, owed)
    ensures UniqueTags(Step(c, i))
  {
  }

  lemma LookupStep(c: Cache, i: Input, mem: Memory, changes: bool, dirty: bool, owed: seq<nat>)
    requires Invariant(c, mem, dirty, owed) && Obliging(c.r, i, mem, changes, dirty, owed)
    ensures Step(c, i).r.state != Finish ==> LookedUp(Step(c, i))
  {
  }

  lemma HitStep(c: Cache, i: Input, mem: Memory, next: Memory, changes: bool, dirty: bool, owed: seq<nat>)
    requires Invariant(c, mem, dirty, owed) && Obliging(c.r, i, mem, changes, dirty, owed)
    requires !changes ==> SameMemory(mem, next)
    ensures var d := Step(c, i).r; d.reqValid && d.state == Idle ==> HitIsRight(d, next)
  {
    var d := Step(c, i).r;
    if d.reqValid && d.state == Idle {
      var s, k := IndexOf(d.addr), OffsetOf(d.addr);
      SlicesName(d.addr);
      assert c.r.state == Idle && !dirty && !changes;
      if Hits(d, 0) { assert BlockMatches(c, mem, s, 0) && WordMatches(c, mem, s, 0, TagOf(d.addr), k); }
      if Hits(d, 1) { assert BlockMatches(c, mem, s, 1) && WordMatches(c, mem, s, 1, TagOf(d.addr), k); }
    }
  }

  /** While nothing is refilled, blocks are only dropped. */
  lemma CoherentQuiet(c: Cache, i: Input, mem: Memory, next: Memory, changes: bool, dirty: bool, owed: seq<nat>)
    requires Invariant(c, mem, dirty, owed) && Obliging(c.r, i, mem, changes, dirty, owed)
    requires !changes ==> SameMemory(mem, next)
    requires !Refilling(c.r) && !(changes || (dirty && !i.fencei))
    ensures Coherent(Step(c, i), next)
  {
    var d := Step(c, i);
    forall s: nat, w: nat | s < BLOCKS && w < WAYS && d.valids[s].At(w) && !IsTarget(d.r, s, w)
      ensures BlockMatches(d, next, s, w)
    {
      assert c.valids[s].At(w) && !dirty && BlockMatches(c, mem, s, w);
      assert d.info[s].Tag(w) == c.info[s].Tag(w);
      forall k: nat ensures WordMatches(d, next, s, w, d.info[s].Tag(w), k) {
        assert WordMatches(c, mem, s, w, c.info[s].Tag(w), k);
      }
    }
  }

  /** During a refill the other blocks stay as they are, and the last word makes
      the new block match. */
  lemma CoherentRefill(c: Cache, i: Input, mem: Memory, next: Memory, changes: bool, dirty: bool, owed: seq<nat>)
    requires Invariant(c, mem, dirty, owed) && Obliging(c.r, i, mem, changes, dirty, owed)
    requires SameMemory(mem, next) && Refilling(c.r)
    ensures Coherent(Step(c, i), next)
  {
    var d := Step(c, i);
    forall s: nat, w: nat | s < BLOCKS && w < WAYS && d.valids[s].At(w) && !IsTarget(d.r, s, w)
      ensures BlockMatches(d, next, s, w)
    {
      forall k: nat ensures WordMatches(d, next, s, w, d.info[s].Tag(w), k) {
        if IsTarget(c.r, s, w) {
          FilledWord(c, i, mem, next, changes, dirty, owed, k);
        } else {
          OtherWord(c, i, mem, next, changes, dirty, owed, s, w, k);
        }
      }
    }
  }

  lemma OtherWord(c: Cache, i: Input, mem: Memory, next: Memory, changes: bool, dirty: bool, owed: seq<nat>, s: nat,
                  w: nat, k: nat)
    requires Invariant(c, mem, dirty, owed) && Obliging(c.r, i, mem, changes, dirty, owed)
    requires SameMemory(mem, next) && Refilling(c.r) && s < BLOCKS && w < WAYS && !IsTarget(c.r, s, w)
    requires Step(c, i).valids[s].At(w)
    ensures WordMatches(Step(c, i), next, s, w, Step(c, i).info[s].Tag(w), k)
  {
    assert c.valids[s].At(w) && BlockMatches(c, mem, s, w) && WordMatches(c, mem, s, w, c.info[s].Tag(w), k);
  }

  /** The last word of a refill, and the words before it. */
  lemma FilledWord(c: Cache, i: Input, mem: Memory, next: Memory, changes: bool, dirty: bool, owed: seq<nat>, k: nat)
    requires Invariant(c, mem, dirty, owed) && Obliging(c.r, i, mem, changes, dirty, owed)
    requires SameMemory(mem, next) && Completes(c.r, i)
    ensures var d, s, w := Step(c, i), IndexOf(c.r.addr), c.r.replaceWay;
            WordMatches(d, next, s, w, d.info[s].Tag(w), k)
  {
    var d, s, w := Step(c, i), IndexOf(c.r.addr), c.r.replaceWay;
    LastAnswer(c.r, i, mem, owed);
    assert d.info[s].Tag(w) == TagOf(c.r.addr);
    assert d.Data(w) == c.Data(w)[s * WORDS + 3 := i.answer.data];
    if k < 3 { assert WordMatches(c, mem, s, w, TagOf(c.r.addr), k); }
  }

  lemma LastAnswer(c: Regs, i: Input, mem: Memory, owed: seq<nat>)
    requires Counted(c, owed) && Completes(c, i) && owed != [] && i.answer.data == mem(owed[0])
    ensures i.answer.data == mem(WordNumber(TagOf(c.addr), IndexOf(c.addr), 3))
  {
    RangeFacts(BlockWord(c.addr) + 3, BlockWord(c.addr) + 4, BlockWord(c.addr) + 4);
  }

  /** A word that arrives is the next one of the block. */
  lemma NextAnswer(c: Regs, i: Input, mem: Memory, owed: seq<nat>)
    requires Refilling(c) && Counted(c, owed) && i.answer.Answer? && owed != [] && i.answer.data == mem(owed[0])
    ensures i.answer.data == mem(BlockWord(c.addr) + c.respCounter)
  {
    RangeFacts(BlockWord(c.addr) + c.respCounter, BlockWord(c.addr) + (if c.state == Read then c.reqCounter else WORDS),
               BlockWord(c.addr) + WORDS);
  }

  lemma RefilledWords(c: Cache, i: Input, mem: Memory, next: Memory, changes: bool, dirty: bool, owed: seq<nat>, k: nat)
    requires Invariant(c, mem, dirty, owed) && Obliging(c.r, i, mem, changes, dirty, owed)
    requires SameMemory(mem, next) && Refilling(c.r) && Refilling(Step(c, i).r) && k < Step(c, i).r.respCounter
    ensures WordMatches(Step(c, i), next, IndexOf(c.r.addr), c.r.replaceWay, TagOf(c.r.addr), k)
  {
    var s, w := IndexOf(c.r.addr), c.r.replaceWay;
    if k < c.r.respCounter {
      assert WordMatches(c, mem, s, w, TagOf(c.r.addr), k);
    } else {
      NextAnswer(c.r, i, mem, owed);
    }
  }

  /** The word asked for is kept when it arrives. */
  lemma WordKept(c: Cache, i: Input, mem: Memory, next: Memory, changes: bool, dirty: bool, owed: seq<nat>)
    requires Invariant(c, mem, dirty, owed) && Obliging(c.r, i, mem, changes, dirty, owed)
    requires SameMemory(mem, next) && Refilling(c.r)
    ensures var d := Step(c, i).r;
            (Refilling(d) && OffsetOf(d.addr) < d.respCounter) || d.state == Finish ==> d.inst2Fire == next(d.addr / 4)
  {
    BlockAddress(c.r.addr);
    if i.answer.Answer? { NextAnswer(c.r, i, mem, owed); }
  }

  /** The refill goes on: one more word in place, the word asked for kept. */
  lemma RefillGoesOn(c: Cache, i: Input, mem: Memory, next: Memory, changes: bool, dirty: bool, owed: seq<nat>)
    requires Invariant(c, mem, dirty, owed) && Obliging(c.r, i, mem, changes, dirty, owed)
    requires SameMemory(mem, next) && Refilling(c.r)
    ensures var d := Step(c, i);
            && (Refilling(d.r) ==> Refilled(d, next))
            && (d.r.state == Finish ==> d.r.inst2Fire == next(d.r.addr / 4))
  {
    var d := Step(c, i);
    WordKept(c, i, mem, next, changes, dirty, owed);
    if Refilling(d.r) {
      forall k: nat | k < d.r.respCounter
          ensures WordMatches(d, next, IndexOf(d.r.addr), d.r.replaceWay, TagOf(d.r.addr), k) {
        RefilledWords(c, i, mem, next, changes, dirty, owed, k);
      }
    }
  }

  lemma RefillStarts(c: Cache, i: Input, mem: Memory, next: Memory, changes: bool, dirty: bool, owed: seq<nat>)
    requires Invariant(c, mem, dirty, owed) && Obliging(c.r, i, mem, changes, dirty, owed)
    requires !Refilling(c.r)
    ensures var d := Step(c, i);
            && (Refilling(d.r) ==> Refilled(d, next))
            && (d.r.state == Finish ==> c.r.state == Finish && !i.taken)
  {
  }

  // ----- Runs -----

  /** Every step of the cache in obliging surroundings keeps the invariant. */
  lemma InvariantKept(c: Cache, i: Input, mem: Memory, next: Memory, changes: bool, dirty: bool, owed: seq<nat>)
    requires Invariant(c, mem, dirty, owed) && Obliging(c.r, i, mem, changes, dirty, owed)
    requires !changes ==> SameMemory(mem, next)
    ensures Invariant(Step(c, i), next, changes || (dirty && !i.fencei), Waiting(owed, c.r, i))
  {
    CountedStep(c, i, mem, changes, dirty, owed);
    UniqueStep(c, i, mem, dirty, owed);
    LookupStep(c, i, mem, changes, dirty, owed);
    HitStep(c, i, mem, next, changes, dirty, owed);
    if Refilling(c.r) {
      CoherentRefill(c, i, mem, next, changes, dirty, owed);
      RefillGoesOn(c, i, mem, next, changes, dirty, owed);
    } else {
      if !(changes || (dirty && !i.fencei)) { CoherentQuiet(c, i, mem, next, changes, dirty, owed); }
      RefillStarts(c, i, mem, next, changes, dirty, owed);
    }
  }

  /** A response carries the word that memory holds at the requested address. */
  lemma ResponseIsMemory(c: Cache, mem: Memory, dirty: bool, owed: seq<nat>)
    requires Invariant(c, mem, dirty, owed) && Responds(c.r)
    ensures c.r.reqValid && Response(c.r) == mem(c.r.addr / 4)
  {
    if c.r.state == Idle { OneHotSelects(c.r); }
  }

  lemma OneHotSelects(c: Regs)
    requires !(Hits(c, 0) && Hits(c, 1))
    ensures Hits(c, 0) ==> HitData(c) == c.out0
    ensures Hits(c, 1) ==> HitData(c) == c.out1
  {
    var a, b := c.out0, c.out1;
    assert a | 0 == a && 0 | b == b;
  }

  /** A request stays until it is answered, and makes room when it is. */
  lemma OneResponseEach(c: Cache, i: Input, mem: Memory, changes: bool, dirty: bool, owed: seq<nat>)
    requires Invariant(c, mem, dirty, owed) && Obliging(c.r, i, mem, changes, dirty, owed)
    ensures c.r.reqValid && !Responds(c.r) ==>
      !Fetches(c.r, i) && Step(c, i).r.reqValid && Step(c, i).r.addr == c.r.addr
    ensures c.r.reqValid && Responds(c.r) && !Fetches(c.r, i) ==> !Step(c, i).r.reqValid
    ensures Fetches(c.r, i) ==> Step(c, i).r.reqValid && Step(c, i).r.addr == i.fetch.addr
  {
  }

  /** Whether memory has changed since the last fence.i. */
  function DirtyAt(ins: nat -> Input, changes: nat -> bool, n: nat): bool {
    n > 0 && (changes(n - 1) || (DirtyAt(ins, changes, n - 1) && !ins(n - 1).fencei))
  }

  function OwedAt(cs: nat -> Cache, ins: nat -> Input, n: nat): seq<nat> {
    if n == 0 then [] else Waiting(OwedAt(cs, ins, n - 1), cs(n - 1).r, ins(n - 1))
  }

  /** One cycle in obliging surroundings, from c to d. */
  ghost predicate Moves(c: Cache, d: Cache, i: Input, mem: Memory, next: Memory, changes: bool, dirty: bool,
                        owed: seq<nat>) {
    && (c.WellFormed() ==> d == Step(c, i))
    && Obliging(c.r, i, mem, changes, dirty, owed)
    && (!changes ==> SameMemory(mem, next))
  }

  ghost predicate RunsAt(cs: nat -> Cache, ins: nat -> Input, mems: nat -> Memory, changes: nat -> bool, n: nat) {
    Moves(cs(n), cs(n + 1), ins(n), mems(n), mems(n + 1), changes(n), DirtyAt(ins, changes, n), OwedAt(cs, ins, n))
  }

  /** A run from reset in obliging surroundings, in which memory may change. */
  ghost predicate IsRun(cs: nat -> Cache, ins: nat -> Input, mems: nat -> Memory, changes: nat -> bool) {
    IsReset(cs(0)) && forall n: nat :: RunsAt(cs, ins, mems, changes, n)
  }

  ghost predicate HoldsAt(cs: nat -> Cache, ins: nat -> Input, mems: nat -> Memory, changes: nat -> bool, n: nat) {
    Invariant(cs(n), mems(n), DirtyAt(ins, changes, n), OwedAt(cs, ins, n))
  }

  lemma HoldsAtStart(cs: nat -> Cache, ins: nat -> Input, mems: nat -> Memory, changes: nat -> bool)
    requires IsReset(cs(0))
    ensures HoldsAt(cs, ins, mems, changes, 0)
  {
  }

  lemma HoldsOn(cs: nat -> Cache, ins: nat -> Input, mems: nat -> Memory, changes: nat -> bool, n: nat)
    requires IsRun(cs, ins, mems, changes) && HoldsAt(cs, ins, mems, changes, n)
    ensures HoldsAt(cs, ins, mems, changes, n + 1)
  {
    assert RunsAt(cs, ins, mems, changes, n);
    InvariantKept(cs(n), ins(n), mems(n), mems(n + 1), changes(n), DirtyAt(ins, changes, n), OwedAt(cs, ins, n));
  }

  /** The invariant holds in every cycle of every run. */
  lemma {:induction false} InvariantHolds(cs: nat -> Cache, ins: nat -> Input, mems: nat -> Memory,
                                          changes: nat -> bool, n: nat)
    requires IsRun(cs, ins, mems, changes)
    ensures HoldsAt(cs, ins, mems, changes, n)
  {
    if n == 0 {
      HoldsAtStart(cs, ins, mems, changes);
    } else {
      InvariantHolds(cs, ins, mems, changes, n - 1);
      HoldsOn(cs, ins, mems, changes, n - 1);
    }
  }

  /** Every word the cache returns, in any run of hits and refills, is the one
      memory holds at the requested address. */
  lemma EveryResponseIsMemory(cs: nat -> Cache, ins: nat -> Input, mems: nat -> Memory, changes: nat -> bool, n: nat)
    requires IsRun(cs, ins, mems, changes) && Responds(cs(n).r)
    ensures cs(n).r.reqValid && Response(cs(n).r) == mems(n)(cs(n).r.addr / 4)
  {
    InvariantHolds(cs, ins, mems, changes, n);
    ResponseIsMemory(cs(n), mems(n), DirtyAt(ins, changes, n), OwedAt(cs, ins, n));
  }

  /** In every set at most one way holds the block of an address. */
  lemma AtMostOneWayMatches(cs: nat -> Cache, ins: nat -> Input, mems: nat -> Memory, changes: nat -> bool, n: nat,
                            addr: nat)
    requires IsRun(cs, ins, mems, changes)
    ensures var c, s := cs(n), IndexOf(addr);
            c.WellFormed()
            && !(c.valids[s].v0 && c.info[s].tag0 == TagOf(addr) && c.valids[s].v1 && c.info[s].tag1 == TagOf(addr))
  {
    InvariantHolds(cs, ins, mems, changes, n);
  }
}
