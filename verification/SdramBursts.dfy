// The AXI front end as a whole: arbitration between reads and writes, burst
// registers, and the tracking of requests and responses
// (vsrc/perip/sdram/core_sdram_axi4/sdram_axi_pmem.v).
module SdramBursts {
  import opened SdramCore
  import opened SdramProtocol
  import opened SdramPort

  // ----- Signals -----

  /** A valid read or write address. */
  datatype AddrBeat = NoAddr | Addr(addr: nat, id: nat, len: nat, burst: nat)

  /** A valid write beat. */
  datatype DataBeat = NoData | Data(data: Word, strb: Strobe, last: bool)

  /** What the AXI master drives in a cycle. */
  datatype Master = Master(aw: AddrBeat, w: DataBeat, ar: AddrBeat, bready: bool, rready: bool)

  /** What the memory controller answers in the same cycle. */
  datatype Ram = Ram(accept: bool, ack: bool, data: Word)

  /** A request on its way, for the matching of responses. */
  datatype Entry = Entry(read: bool, last: bool, id: nat)

  /** The registers of the burst under way: a read burst, a write burst or none. */
  datatype Burst = Burst(len: nat, addr: nat, rd: bool, wr: bool, id: nat, kind: nat, axlen: nat, prio: bool)

  datatype Port = Port(b: Burst, holdRd: bool, holdWr: bool, requests: seq<Entry>, responses: seq<Word>)

  function PortReset(): Port { Port(Burst(0, 0, false, false, 0, 0, 0, false), false, false, [], []) }

  // ----- Combinational logic -----

  predicate Room(p: Port) { |p.requests| != DEPTH }

  predicate WriteActive(p: Port, a: Master) {
    (a.aw.Addr? || p.b.wr) && !p.b.rd && Room(p) && (((p.b.prio && !p.holdRd) || p.holdWr) || p.b.wr || !a.ar.Addr?)
  }

  predicate ReadActive(p: Port, a: Master) {
    (a.ar.Addr? || p.b.rd) && !p.b.wr && Room(p) && (((!p.b.prio && !p.holdWr) || p.holdRd) || p.b.rd || !a.aw.Addr?)
  }

  /** ram_wr_o, ram_rd_o, ram_addr_o and ram_write_data_o. */
  function RamRequest(p: Port, a: Master): Request {
    Request(
      if WriteActive(p, a) && a.w.Data? then a.w.strb else [false, false, false, false],
      ReadActive(p, a),
      if p.b.wr || p.b.rd then p.b.addr
      else if WriteActive(p, a) then (if a.aw.Addr? then a.aw.addr else 0)
      else (if a.ar.Addr? then a.ar.addr else 0),
      if a.w.Data? then a.w.data else NO_WORD)
  }

  predicate AwReady(p: Port, a: Master, accept: bool) { WriteActive(p, a) && !p.b.wr && accept && Room(p) }
  predicate WReady(p: Port, a: Master, accept: bool) { WriteActive(p, a) && accept && Room(p) }
  predicate ArReady(p: Port, a: Master, accept: bool) { ReadActive(p, a) && !p.b.rd && accept && Room(p) }

  predicate AwTaken(p: Port, a: Master, accept: bool) { a.aw.Addr? && AwReady(p, a, accept) }
  predicate WTaken(p: Port, a: Master, accept: bool) { a.w.Data? && WReady(p, a, accept) }
  predicate ArTaken(p: Port, a: Master, accept: bool) { a.ar.Addr? && ArReady(p, a, accept) }

  /** req_push_w. */
  predicate Pushes(p: Port, a: Master, accept: bool) { RamRequest(p, a).Active() && accept }

  /** req_in_r. */
  function PushedEntry(p: Port, a: Master, accept: bool): Entry {
    if ArTaken(p, a, accept) then Entry(true, a.ar.len == 0, a.ar.id)
    else if AwTaken(p, a, accept) then Entry(false, a.aw.len == 0, a.aw.id)
    else Entry(ReadActive(p, a), p.b.len == 0, p.b.id)
  }

  predicate RValid(p: Port) { p.responses != [] && p.requests != [] && p.requests[0].read }
  predicate BValid(p: Port) { p.responses != [] && p.requests != [] && !p.requests[0].read && p.requests[0].last }

  /** resp_accept_w. */
  predicate Pops(p: Port, a: Master) {
    || (RValid(p) && a.rready)
    || (BValid(p) && a.bready)
    || (p.responses != [] && p.requests != [] && !p.requests[0].read && !p.requests[0].last)
  }

  function Decrement(len: nat): nat { (len + 255) % 256 }

  /** The burst registers one clock later. */
  function BurstAfter(b: Burst, a: Master, pushes: bool, awTaken: bool, wTaken: bool, arTaken: bool): Burst
    requires (awTaken ==> a.aw.Addr?) && (arTaken ==> a.ar.Addr?) && (wTaken ==> a.w.Data?)
  {
    var c :=
      if !pushes then b
      else if b.len == 0 then b.(rd := false, wr := false)
      else b.(addr := NextAddr(b.addr, b.kind, b.axlen), len := Decrement(b.len));
    if awTaken then
      var d := c.(id := a.aw.id, kind := a.aw.burst, axlen := a.aw.len, prio := !b.prio);
      if wTaken then
        d.(wr := !a.w.last, len := Decrement(a.aw.len), addr := NextAddr(a.aw.addr, a.aw.burst, a.aw.len))
      else d.(wr := true, len := a.aw.len, addr := a.aw.addr)
    else if arTaken then
      c.(rd := a.ar.len != 0, len := Decrement(a.ar.len), addr := NextAddr(a.ar.addr, a.ar.burst, a.ar.len),
         id := a.ar.id, kind := a.ar.burst, axlen := a.ar.len, prio := !b.prio)
    else c
  }

  /** Everything that the next values of the registers depend on. */
  datatype Signals =
    Signals(reading: bool, writing: bool, pushes: bool, pops: bool, aw: bool, w: bool, ar: bool, entry: Entry)
  {
    predicate For(a: Master) { (aw ==> a.aw.Addr?) && (ar ==> a.ar.Addr?) && (w ==> a.w.Data?) }
  }

  function SignalsOf(p: Port, a: Master, accept: bool): (s: Signals)
    ensures s.For(a)
  {
    Signals(ReadActive(p, a), AnyLane(RamRequest(p, a).wr), Pushes(p, a, accept), Pops(p, a),
            AwTaken(p, a, accept), WTaken(p, a, accept), ArTaken(p, a, accept), PushedEntry(p, a, accept))
  }

  /** All registers one clock later. */
  function PortStep(p: Port, a: Master, r: Ram): Port { Advance(p, a, r, SignalsOf(p, a, r.accept)) }

  function Advance(p: Port, a: Master, r: Ram, s: Signals): Port
    requires s.For(a)
  {
    Port(
      BurstAfter(p.b, a, s.pushes, s.aw, s.w, s.ar),
      if s.reading && !r.accept then true else if r.accept then false else p.holdRd,
      if s.writing && !r.accept then true else if r.accept then false else p.holdWr,
      Queued(p.requests, s.entry, s.pushes, s.pops),
      Queued(p.responses, r.data, r.ack, s.pops))
  }

  // ----- The registers -----

  class SdramAxiPort {
    var len: nat
    var addr: nat
    var rd: bool
    var wr: bool
    var id: nat
    var kind: nat
    var axlen: nat
    var prio: bool
    var holdRd: bool
    var holdWr: bool
    const requests: Fifo2<Entry>
    const responses: Fifo2<Word>

    ghost predicate Valid()
      reads this, requests, responses, requests.ram, responses.ram
    {
      requests.Valid() && responses.Valid()
    }

    function BurstRegisters(): Burst
      reads this
    {
      Burst(len, addr, rd, wr, id, kind, axlen, prio)
    }

    ghost function Registers(): Port
      requires Valid()
      reads this, requests, responses, requests.ram, responses.ram
    {
      Port(BurstRegisters(), holdRd, holdWr, requests.Contents(), responses.Contents())
    }

    constructor ()
      ensures Valid() && Registers() == PortReset()
      ensures fresh(requests) && fresh(responses) && fresh(requests.ram) && fresh(responses.ram)
    {
      var q := new Fifo2<Entry>();
      var s := new Fifo2<Word>();
      len, addr, rd, wr, id, kind, axlen := 0, 0, false, false, 0, 0, 0;
      prio, holdRd, holdWr := false, false, false;
      requests, responses := q, s;
    }

    /** Which side of the master is served. */
    method Arbitrate(a: Master) returns (writeActive: bool, readActive: bool)
      requires Valid()
      ensures writeActive == WriteActive(Registers(), a) && readActive == ReadActive(Registers(), a)
    {
      var room := requests.AcceptO();
      var writePrio := (prio && !holdRd) || holdWr;
      var readPrio := (!prio && !holdWr) || holdRd;
      writeActive := (a.aw.Addr? || wr) && !rd && room && (writePrio || wr || !a.ar.Addr?);
      readActive := (a.ar.Addr? || rd) && !wr && room && (readPrio || rd || !a.aw.Addr?);
    }

    /** The combinational signals of a cycle. */
    method Combine(a: Master, accept: bool) returns (s: Signals)
      requires Valid()
      ensures s == SignalsOf(Registers(), a, accept)
    {
      var writeActive, readActive := Arbitrate(a);
      var writing := writeActive && a.w.Data? && AnyLane(a.w.strb);
      assert writing == AnyLane(RamRequest(Registers(), a).wr);
      var pushes := (readActive || writing) && accept;
      var aw, w, ar := Handshakes(a, accept, writeActive, readActive);
      var entry := TrackedEntry(a, aw, ar, readActive);
      var pops := Respond(a);
      assert entry == PushedEntry(Registers(), a, accept) && pushes == Pushes(Registers(), a, accept);
      s := Signals(readActive, writing, pushes, pops, aw, w, ar, entry);
    }

    /** Which of the master's channels are accepted. */
    method Handshakes(a: Master, accept: bool, writeActive: bool, readActive: bool)
      returns (aw: bool, w: bool, ar: bool)
      requires Valid() && writeActive == WriteActive(Registers(), a) && readActive == ReadActive(Registers(), a)
      ensures aw == AwTaken(Registers(), a, accept) && w == WTaken(Registers(), a, accept)
      ensures ar == ArTaken(Registers(), a, accept)
    {
      var room := requests.AcceptO();
      aw := a.aw.Addr? && writeActive && !wr && accept && room;
      w := a.w.Data? && writeActive && accept && room;
      ar := a.ar.Addr? && readActive && !rd && accept && room;
    }

    /** What is noted about a request for the matching of its response. */
    method TrackedEntry(a: Master, aw: bool, ar: bool, readActive: bool) returns (entry: Entry)
      requires (aw ==> a.aw.Addr?) && (ar ==> a.ar.Addr?)
      ensures entry ==
        if ar then Entry(true, a.ar.len == 0, a.ar.id)
        else if aw then Entry(false, a.aw.len == 0, a.aw.id)
        else Entry(readActive, len == 0, id)
    {
      if ar {
        entry := Entry(true, a.ar.len == 0, a.ar.id);
      } else if aw {
        entry := Entry(false, a.aw.len == 0, a.aw.id);
      } else {
        entry := Entry(readActive, len == 0, id);
      }
    }

    /** Whether a response leaves both queues. */
    method Respond(a: Master) returns (pops: bool)
      requires Valid()
      ensures pops == Pops(Registers(), a)
    {
      pops := false;
      if responses.ValidO() && requests.ValidO() {
        var head := requests.DataOut();
        pops := if head.read then a.rready else if head.last then a.bready else true;
      }
    }

    /** The burst registers: continuation first, then an accepted address overrides it. */
    method UpdateBurst(a: Master, pushes: bool, awTaken: bool, wTaken: bool, arTaken: bool)
      requires (awTaken ==> a.aw.Addr?) && (arTaken ==> a.ar.Addr?) && (wTaken ==> a.w.Data?)
      modifies `len, `addr, `rd, `wr, `id, `kind, `axlen, `prio
      ensures BurstRegisters() == BurstAfter(old(BurstRegisters()), a, pushes, awTaken, wTaken, arTaken)
    {
      if pushes {
        if len == 0 {
          rd, wr := false, false;
        } else {
          addr := NextAddr(addr, kind, axlen);
          len := Decrement(len);
        }
      }
      if awTaken {
        if wTaken {
          wr := !a.w.last;
          len := Decrement(a.aw.len);
          addr := NextAddr(a.aw.addr, a.aw.burst, a.aw.len);
        } else {
          wr := true;
          len := a.aw.len;
          addr := a.aw.addr;
        }
        id, kind, axlen := a.aw.id, a.aw.burst, a.aw.len;
        prio := !prio;
      } else if arTaken {
        rd := a.ar.len != 0;
        len := Decrement(a.ar.len);
        addr := NextAddr(a.ar.addr, a.ar.burst, a.ar.len);
        id, kind, axlen := a.ar.id, a.ar.burst, a.ar.len;
        prio := !prio;
      }
    }

    /** The flags that keep an unanswered request in front. */
    method UpdateHolds(reading: bool, writing: bool, accept: bool)
      modifies `holdRd, `holdWr
      ensures holdRd == if reading && !accept then true else if accept then false else old(holdRd)
      ensures holdWr == if writing && !accept then true else if accept then false else old(holdWr)
    {
      if reading && !accept { holdRd := true; } else if accept { holdRd := false; }
      if writing && !accept { holdWr := true; } else if accept { holdWr := false; }
    }

    /** One clock. */
    method Clock(a: Master, r: Ram)
      requires Valid()
      modifies this, requests, responses, requests.ram, responses.ram
      ensures Valid()
      ensures Registers() == PortStep(old(Registers()), a, r)
    {
      var s := Combine(a, r.accept);
      Assign(a, r, s);
    }

    method Assign(a: Master, r: Ram, s: Signals)
      requires Valid() && s.For(a)
      modifies this, requests, responses, requests.ram, responses.ram
      ensures Valid()
      ensures Registers() == Advance(old(Registers()), a, r, s)
    {
      UpdateBurst(a, s.pushes, s.aw, s.w, s.ar);
      UpdateHolds(s.reading, s.writing, r.accept);
      UpdateQueues(r, s);
    }

    /** Both queues. */
    method UpdateQueues(r: Ram, s: Signals)
      requires Valid()
      modifies requests, responses, requests.ram, responses.ram
      ensures Valid()
      ensures requests.Contents() == Queued(old(requests.Contents()), s.entry, s.pushes, s.pops)
      ensures responses.Contents() == Queued(old(responses.Contents()), r.data, r.ack, s.pops)
    {
      requests.Clock(s.entry, s.pushes, s.pops);
      responses.Clock(r.data, r.ack, s.pops);
    }
  }
}
