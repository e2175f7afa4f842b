// The instruction cache: two ways, synchronous RAMs that deliver the old content
// of a cell, and the refill state machine
// (npc_chisel/npc_chisel/src/utils/cache/ICache.scala, utils/memory/SDPRAM.scala).
module InstructionCache {

  /** A 32-bit instruction word. */
  type Word = bv32

  const BLOCKS := 16
  const WORDS := 4
  const WAYS := 2

  // ----- Address slices -----

  function IndexOf(addr: nat): nat { addr / 16 % BLOCKS }
  function OffsetOf(addr: nat): nat { addr / 4 % WORDS }
  function TagOf(addr: nat): nat { addr / 256 }

  /** The number of a word of memory, from the slices and from the address. */
  function WordNumber(tag: nat, index: nat, offset: nat): nat { (tag * BLOCKS + index) * WORDS + offset }

  lemma SlicesName(addr: nat)
    ensures WordNumber(TagOf(addr), IndexOf(addr), OffsetOf(addr)) == addr / 4
  {
    var q := addr / 4;
    assert addr / 16 == q / 4 && addr / 256 == q / 4 / 16;
  }

  /** The region in which the bus serves bursts. */
  predicate Burstable(addr: nat) { 0x10000000 <= addr < 0x1fffffff }

  // ----- Signals -----

  datatype State = Idle | Read | Commit | Finish

  /** The tags of both ways of a set, and whether way 1 is replaced next. */
  datatype Info = Info(tag0: nat, tag1: nat, lru: bool)
  {
    function Tag(w: nat): nat { if w == 0 then tag0 else tag1 }
    function WithTag(w: nat, t: nat): Info { if w == 0 then this.(tag0 := t) else this.(tag1 := t) }
  }

  /** The valid bits of both ways of a set. */
  datatype Bits = Bits(v0: bool, v1: bool)
  {
    predicate At(w: nat) { if w == 0 then v0 else v1 }
    function With(w: nat): Bits { if w == 0 then this.(v0 := true) else this.(v1 := true) }
  }

  /** A request of the fetch stage. */
  datatype Fetch = NoFetch | Fetch(addr: nat, len: nat)

  datatype Answer = NoAnswer | Answer(data: Word)

  /** What surrounds the cache in a cycle: the fetch stage, the bus, fence.i. */
  datatype Input = Input(fetch: Fetch, taken: bool, arReady: bool, answer: Answer, fencei: bool)

  /** A request to memory for len + 1 words. */
  datatype BusRequest = NoRequest | BusRequest(addr: nat, len: nat)

  datatype Regs = Regs(
    blockValids: Bits, infoOut: Info, out0: Word, out1: Word,
    reqValid: bool, addr: nat, len: nat,
    state: State, reqCounter: nat, respCounter: nat, replaceWay: nat, inst2Fire: Word)

  /** The registers, the valid bits and the contents of the RAMs. */
  datatype Cache = Cache(r: Regs, valids: seq<Bits>, info: seq<Info>, data0: seq<Word>, data1: seq<Word>)
  {
    predicate WellFormed() {
      |valids| == BLOCKS && |info| == BLOCKS && |data0| == BLOCKS * WORDS && |data1| == BLOCKS * WORDS
      && r.reqCounter < WORDS && r.respCounter < WORDS && r.replaceWay < WAYS
    }

    function Data(w: nat): seq<Word> { if w == 0 then data0 else data1 }
  }

  // ----- Combinational logic -----

  predicate Hits(c: Regs, w: nat) { c.blockValids.At(w) && c.infoOut.Tag(w) == TagOf(c.addr) }

  predicate Hit(c: Regs) { c.state == Idle && (Hits(c, 0) || Hits(c, 1)) }

  /** Mux1H: the outputs of all selected ways, joined bit by bit. */
  function HitData(c: Regs): Word {
    (if Hits(c, 0) then c.out0 else 0) | (if Hits(c, 1) then c.out1 else 0)
  }

  /** io.arFromIF.ready and fire. */
  predicate Ready(c: Regs) { (c.state == Idle || c.state == Finish) && ((c.reqValid && Hit(c)) || !c.reqValid) }
  predicate Fetches(c: Regs, i: Input) { i.fetch.Fetch? && Ready(c) }

  /** io.rToIF. */
  predicate Responds(c: Regs) { (Hit(c) && c.state == Idle && c.reqValid) || c.state == Finish }
  function Response(c: Regs): Word { if c.state == Finish then c.inst2Fire else HitData(c) }

  function BlockAddr(addr: nat): nat { addr / 16 * 16 }

  /** io.arToMem. */
  function ToMemory(c: Regs): BusRequest {
    if c.state == Idle && c.reqValid && !Hit(c) then
      BusRequest(BlockAddr(c.addr), if Burstable(c.addr) then WORDS - 1 else c.len)
    else if c.state == Read then BusRequest(BlockAddr(c.addr) + c.reqCounter * 4, c.len)
    else NoRequest
  }

  predicate Launches(c: Regs, i: Input) { ToMemory(c).BusRequest? && i.arReady }

  /** The address whose set and word are read in this cycle. */
  function LookupAddr(c: Regs, i: Input): nat { if Fetches(c, i) then i.fetch.addr else c.addr }

  function Cell(addr: nat, word: nat): nat { IndexOf(addr) * WORDS + word }

  /** The refill writes the word that arrives into the way being replaced. */
  predicate Fills(c: Regs, i: Input) { i.answer.Answer? && (c.state == Read || c.state == Commit) }

  /** The last word of a refill. */
  predicate Completes(c: Regs, i: Input) { i.answer.Answer? && c.state == Commit && c.respCounter == WORDS - 1 }

  /** infoRams_wdata, when the set's entry is written. */
  function NewInfo(c: Regs, i: Input): Info {
    if Completes(c, i) then c.infoOut.(lru := !c.infoOut.lru).WithTag(c.replaceWay, TagOf(c.addr))
    else c.infoOut.(lru := Hits(c, 0))
  }

  predicate WritesInfo(c: Regs, i: Input) { Completes(c, i) || Hit(c) }

  predicate WritesData(c: Regs, i: Input, w: nat) { Fills(c, i) && c.replaceWay == w }

  function ArrivingWord(i: Input): Word { if i.answer.Answer? then i.answer.data else 0 }

  /** fence.i drops every block. */
  function Cleared(valids: seq<Bits>, i: Input): (r: seq<Bits>)
    requires |valids| == BLOCKS
    ensures |r| == BLOCKS && forall s :: 0 <= s < BLOCKS ==> r[s] == if i.fencei then Bits(false, false) else valids[s]
  {
    if i.fencei then seq(BLOCKS, s => Bits(false, false)) else valids
  }

  /** The valid bits one clock later. */
  function ValidsAfter(valids: seq<Bits>, r: Regs, i: Input): seq<Bits>
    requires |valids| == BLOCKS
  {
    var cleared := Cleared(valids, i);
    var index := IndexOf(r.addr);
    if Completes(r, i) then cleared[index := cleared[index].With(r.replaceWay)] else cleared
  }

  function StateAfter(c: Regs, i: Input): State {
    match c.state
    case Idle => if Launches(c, i) then (if Burstable(c.addr) then Commit else Read) else Idle
    case Read => if Launches(c, i) && c.reqCounter == WORDS - 1 then Commit else Read
    case Commit => if Completes(c, i) then Finish else Commit
    case Finish => if i.taken then Idle else Finish
  }

  /** The registers one clock later, with the outputs of the RAMs. */
  function RegsAfter(c: Regs, i: Input, bits: Bits, info: Info, out0: Word, out1: Word): Regs {
    Regs(bits, info, out0, out1,
         if Fetches(c, i) then true else if Responds(c) && i.taken then false else c.reqValid,
         if Fetches(c, i) then i.fetch.addr else c.addr,
         if Fetches(c, i) then i.fetch.len else c.len,
         StateAfter(c, i),
         if c.state == Finish then 0 else if Launches(c, i) then (c.reqCounter + 1) % WORDS else c.reqCounter,
         if c.state == Finish then 0 else if Fills(c, i) then (c.respCounter + 1) % WORDS else c.respCounter,
         if c.state == Idle && ToMemory(c).BusRequest? then (if c.infoOut.lru then 1 else 0) else c.replaceWay,
         if i.answer.Answer? && c.respCounter == OffsetOf(c.addr) then i.answer.data else c.inst2Fire)
  }

  /** Everything one clock later. The RAMs deliver what the cells held before. */
  function Step(c: Cache, i: Input): Cache
    requires c.WellFormed()
  {
    var look := LookupAddr(c.r, i);
    var fill := Cell(c.r.addr, c.r.respCounter);
    Cache(
      RegsAfter(c.r, i, c.valids[IndexOf(look)], c.info[IndexOf(look)],
                c.data0[Cell(look, OffsetOf(look))], c.data1[Cell(look, OffsetOf(look))]),
      ValidsAfter(c.valids, c.r, i),
      if WritesInfo(c.r, i) then c.info[IndexOf(c.r.addr) := NewInfo(c.r, i)] else c.info,
      if WritesData(c.r, i, 0) then c.data0[fill := ArrivingWord(i)] else c.data0,
      if WritesData(c.r, i, 1) then c.data1[fill := ArrivingWord(i)] else c.data1)
  }

  // ----- The clocked hardware -----

  /** SDPRAM_SYNC: the output shows, one clock later, what the cell held before. */
  class SyncRam<T(0)> {
    const mem: array<T>
    var rdata: T

    constructor (size: nat)
      ensures mem.Length == size && fresh(mem)
    {
      mem := new T[size];
      var t: T := *;
      rdata := t;
    }

    method Clock(raddr: nat, wen: bool, waddr: nat, wdata: T)
      requires raddr < mem.Length && waddr < mem.Length
      modifies this, mem
      ensures rdata == old(mem[raddr])
      ensures mem[..] == if wen then old(mem[..])[waddr := wdata] else old(mem[..])
    {
      rdata := mem[raddr];
      if wen { mem[waddr] := wdata; }
    }
  }

  class ICache {
    var valids: seq<Bits>
    const infoRams: SyncRam<Info>
    const dataRams0: SyncRam<Word>
    const dataRams1: SyncRam<Word>
    var blockValids: Bits
    var reqValid: bool
    var addr: nat
    var len: nat
    var state: State
    var reqCounter: nat
    var respCounter: nat
    var replaceWay: nat
    var inst2Fire: Word

    ghost predicate Valid()
      reads this, infoRams, dataRams0, dataRams1, infoRams.mem, dataRams0.mem, dataRams1.mem
    {
      && dataRams0 != dataRams1 && dataRams0.mem != dataRams1.mem
      && infoRams.mem.Length == BLOCKS && dataRams0.mem.Length == BLOCKS * WORDS
         && dataRams1.mem.Length == BLOCKS * WORDS
      && |valids| == BLOCKS && reqCounter < WORDS && respCounter < WORDS && replaceWay < WAYS
    }

    function Registers(): Regs
      reads this, infoRams, dataRams0, dataRams1
    {
      Regs(blockValids, infoRams.rdata, dataRams0.rdata, dataRams1.rdata, reqValid, addr, len,
           state, reqCounter, respCounter, replaceWay, inst2Fire)
    }

    ghost function Contents(): Cache
      reads this, infoRams, dataRams0, dataRams1, infoRams.mem, dataRams0.mem, dataRams1.mem
    {
      Cache(Registers(), valids, infoRams.mem[..], dataRams0.mem[..], dataRams1.mem[..])
    }

    /** Reset: no block is valid; the RAMs hold anything. */
    constructor ()
      ensures Valid() && IsReset(Contents())
      ensures fresh(infoRams) && fresh(dataRams0) && fresh(dataRams1)
      ensures fresh(infoRams.mem) && fresh(dataRams0.mem) && fresh(dataRams1.mem)
    {
      var a := new SyncRam<Info>(BLOCKS);
      var b := new SyncRam<Word>(BLOCKS * WORDS);
      var d := new SyncRam<Word>(BLOCKS * WORDS);
      infoRams, dataRams0, dataRams1 := a, b, d;
      valids := seq(BLOCKS, s => Bits(false, false));
      blockValids := *;
      reqValid, addr, len, state := false, 0, 0, Idle;
      reqCounter, respCounter, replaceWay, inst2Fire := 0, 0, 0, 0;
    }

    /** The read and write ports of the three RAMs. */
    method ClockRams(r: Regs, i: Input)
      requires Valid() && r.respCounter < WORDS
      modifies infoRams, dataRams0, dataRams1, infoRams.mem, dataRams0.mem, dataRams1.mem
      ensures var look := LookupAddr(r, i);
              && infoRams.rdata == old(infoRams.mem[..])[IndexOf(look)]
              && dataRams0.rdata == old(dataRams0.mem[..])[Cell(look, OffsetOf(look))]
              && dataRams1.rdata == old(dataRams1.mem[..])[Cell(look, OffsetOf(look))]
      ensures infoRams.mem[..] ==
        if WritesInfo(r, i) then old(infoRams.mem[..])[IndexOf(r.addr) := NewInfo(r, i)] else old(infoRams.mem[..])
      ensures var fill := Cell(r.addr, r.respCounter);
              && dataRams0.mem[..] ==
                 (if WritesData(r, i, 0) then old(dataRams0.mem[..])[fill := ArrivingWord(i)]
                     else old(dataRams0.mem[..]))
              && dataRams1.mem[..] ==
                 (if WritesData(r, i, 1) then old(dataRams1.mem[..])[fill := ArrivingWord(i)]
                     else old(dataRams1.mem[..]))
    {
      var look, fill := LookupAddr(r, i), Cell(r.addr, r.respCounter);
      infoRams.Clock(IndexOf(look), WritesInfo(r, i), IndexOf(r.addr), NewInfo(r, i));
      dataRams0.Clock(Cell(look, OffsetOf(look)), WritesData(r, i, 0), fill, ArrivingWord(i));
      dataRams1.Clock(Cell(look, OffsetOf(look)), WritesData(r, i, 1), fill, ArrivingWord(i));
    }

    /** The request register and the word kept for the response to a miss. */
    method ClockFetch(r: Regs, i: Input)
      requires reqValid == r.reqValid && addr == r.addr && len == r.len && inst2Fire == r.inst2Fire
      modifies `reqValid, `addr, `len, `inst2Fire
      ensures reqValid == if Fetches(r, i) then true else if Responds(r) && i.taken then false else r.reqValid
      ensures addr == (if Fetches(r, i) then i.fetch.addr else r.addr)
              && len == if Fetches(r, i) then i.fetch.len else r.len
      ensures inst2Fire == if i.answer.Answer? && r.respCounter == OffsetOf(r.addr) then i.answer.data else r.inst2Fire
    {
      if i.answer.Answer? && r.respCounter == OffsetOf(r.addr) { inst2Fire := i.answer.data; }
      if Fetches(r, i) {
        reqValid, addr, len := true, i.fetch.addr, i.fetch.len;
      } else if Responds(r) && i.taken {
        reqValid := false;
      }
    }

    /** The switch over the state: counters, the way to replace, the valid bit of a
        completed block. */
    method ClockState(r: Regs, i: Input)
      requires |valids| == BLOCKS && state == r.state && reqCounter == r.reqCounter
      requires respCounter == r.respCounter && replaceWay == r.replaceWay
      modifies `state, `reqCounter, `respCounter, `replaceWay, `valids
      ensures state == StateAfter(r, i)
      ensures reqCounter ==
        if r.state == Finish then 0 else if Launches(r, i) then (r.reqCounter + 1) % WORDS else r.reqCounter
      ensures respCounter ==
        if r.state == Finish then 0 else if Fills(r, i) then (r.respCounter + 1) % WORDS else r.respCounter
      ensures replaceWay ==
        if r.state == Idle && ToMemory(r).BusRequest? then (if r.infoOut.lru then 1 else 0) else r.replaceWay
      ensures valids ==
        if Completes(r, i) then old(valids)[IndexOf(r.addr) := old(valids)[IndexOf(r.addr)].With(r.replaceWay)]
            else old(valids)
    {
      var launches := Launches(r, i);
      match state {
        case Idle =>
          if r.reqValid && !Hit(r) {
            replaceWay := if r.infoOut.lru then 1 else 0;
            if launches {
              reqCounter := (reqCounter + 1) % WORDS;
              state := if Burstable(r.addr) then Commit else Read;
            }
          }
        case Read =>
          if i.answer.Answer? { respCounter := (respCounter + 1) % WORDS; }
          if launches {
            if reqCounter == WORDS - 1 { state := Commit; }
            reqCounter := (reqCounter + 1) % WORDS;
          }
        case Commit =>
          if i.answer.Answer? {
            if respCounter == WORDS - 1 {
              state := Finish;
              valids := valids[IndexOf(r.addr) := valids[IndexOf(r.addr)].With(replaceWay)];
            }
            respCounter := (respCounter + 1) % WORDS;
          }
        case Finish =>
          reqCounter, respCounter := 0, 0;
          if i.taken { state := Idle; }
      }
    }

    /** All registers, once the RAMs have been clocked. */
    method ClockRegisters(r: Regs, i: Input, ghost v: seq<Bits>)
      requires Valid() && v == valids
      requires Registers() == r.(infoOut := infoRams.rdata, out0 := dataRams0.rdata, out1 := dataRams1.rdata)
      modifies this
      ensures Valid()
      ensures Registers() == RegsAfter(r, i, v[IndexOf(LookupAddr(r, i))], infoRams.rdata, dataRams0.rdata,
              dataRams1.rdata)
      ensures valids == ValidsAfter(v, r, i)
    {
      ClockValids(r, i);
      ClockState(r, i);
      ghost var bits, next := blockValids,
          RegsAfter(r, i, blockValids, infoRams.rdata, dataRams0.rdata, dataRams1.rdata);
      ClockFetch(r, i);
      assert blockValids == bits && state == next.state && replaceWay == next.replaceWay;
      assert reqCounter == next.reqCounter && respCounter == next.respCounter;
    }

    /** The registered lookup of the valid bits, and fence.i. */
    method ClockValids(r: Regs, i: Input)
      requires |valids| == BLOCKS
      modifies `blockValids, `valids
      ensures blockValids == old(valids)[IndexOf(LookupAddr(r, i))]
      ensures valids == Cleared(old(valids), i)
    {
      blockValids := valids[IndexOf(LookupAddr(r, i))];
      if i.fencei {
        ghost var v := valids;
        valids := seq(BLOCKS, s => Bits(false, false));
        assert valids == Cleared(v, i);
      }
    }

    /** One clock. */
    method Clock(i: Input)
      requires Valid()
      modifies this, infoRams, dataRams0, dataRams1, infoRams.mem, dataRams0.mem, dataRams1.mem
      ensures Valid()
      ensures Contents() == Step(old(Contents()), i)
    {
      var r := Registers();
      ClockRams(r, i);
      ClockRegisters(r, i, valids);
    }
  }

  /** The state after reset. */
  ghost predicate IsReset(c: Cache) {
    && c.WellFormed() && c.r.state == Idle && !c.r.reqValid && c.r.reqCounter == 0 && c.r.respCounter == 0
    && (forall s :: 0 <= s < BLOCKS ==> c.valids[s] == Bits(false, false))
  }
}
