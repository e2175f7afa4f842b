// The SDRAM controller: request state machine, delays, refresh timer, open-row
// table, command output, read pipeline and acknowledgement
// (vsrc/perip/sdram/core_sdram_axi4/sdram_axi_core.v).
module SdramCore {
  import opened Division

  // ----- Words, addresses and requests -----

  type Byte = bv8

  /** 32 bits as bytes, the least significant first. */
  type Word = w: seq<Byte> | |w| == 4 witness [0, 0, 0, 0]

  /** One bit for every byte lane. */
  type Strobe = s: seq<bool> | |s| == 4 witness [false, false, false, false]

  predicate AnyLane(s: Strobe) { s[0] || s[1] || s[2] || s[3] }

  /** inport_wr_i, inport_rd_i, inport_addr_i and inport_write_data_i. */
  datatype Request = Request(wr: Strobe, rd: bool, addr: nat, data: Word)
  {
    predicate Active() { AnyLane(wr) || rd }
  }

  const BANKS := 4
  const ROWS := 8192

  /** addr[24:12], addr[11:10] and addr[9:2]. */
  function RowOf(addr: nat): nat { addr / 4096 % ROWS }
  function BankOf(addr: nat): nat { addr / 1024 % BANKS }
  function ColOf(addr: nat): nat { addr / 4 % 256 }

  // ----- Clock-dependent parameters -----

  datatype Timing = Timing(trcd: nat, trp: nat, trfc: nat, startTimer: nat, refreshCycles: nat)
  {
    /** The delays fit the 4-bit counter; the power-up commands are 10 cycles
        apart and must respect the precharge and refresh times as well. */
    predicate Valid() {
      1 <= trcd <= 15 && 1 <= trp <= 10 && 1 <= trfc <= 10 && 50 < startTimer < 0x2_0000
          && 50 < refreshCycles < 0x2_0000
    }
  }

  /** The parameters derived from SDRAM_MHZ. */
  function AtMegahertz(mhz: nat): Timing
    requires 7 <= mhz <= 166
  {
    var cycle := 1000 / mhz;
    Timing((20 + (cycle - 1)) / cycle, (20 + (cycle - 1)) / cycle, (60 + (cycle - 1)) / cycle,
           100000 / cycle + 100, 64000 * mhz / 8192 - 1)
  }

  lemma CyclesAbove(mhz: nat)
    requires 7 <= mhz <= 166
    ensures 1000 / mhz >= 6
  {
    if 1000 / mhz <= 5 { ProductOrder(1000 / mhz, 5, mhz); }
  }

  /** A delay of ns nanoseconds rounded up to cycles. */
  lemma CyclesBetween(ns: nat, cycle: nat, q: nat)
    requires ns > 0 && cycle > 0 && ns + (cycle - 1) < q * cycle
    ensures 1 <= (ns + (cycle - 1)) / cycle < q
  {
    QuotientBelow(ns + (cycle - 1), cycle, q);
    QuotientPositive(ns + (cycle - 1), cycle);
  }

  /** Every clock from 7 to 166 MHz yields usable parameters. */
  lemma SupportedClocks(mhz: nat)
    requires 7 <= mhz <= 166
    ensures AtMegahertz(mhz).Valid()
  {
    CyclesAbove(mhz);
    TimesInRange(1000 / mhz);
    RefreshInRange(mhz);
  }

  lemma TimesInRange(cycle: nat)
    requires cycle >= 6
    ensures 1 <= (20 + (cycle - 1)) / cycle <= 4
    ensures 1 <= (60 + (cycle - 1)) / cycle <= 10
    ensures 100000 / cycle < 20000
  {
    assert 1 <= (20 + (cycle - 1)) / cycle <= 4 by { CyclesBetween(20, cycle, 5); }
    assert 1 <= (60 + (cycle - 1)) / cycle <= 10 by { CyclesBetween(60, cycle, 11); }
    assert 100000 / cycle < 20000 by { QuotientBelow(100000, cycle, 20000); }
  }

  lemma RefreshInRange(mhz: nat)
    requires 7 <= mhz <= 166
    ensures 51 <= 64000 * mhz / 8192 - 1 < 0x2_0000
  {
  }

  /** The parameters of the instance in the system. */
  lemma InstantiatedClock()
    ensures AtMegahertz(100) == Timing(2, 2, 6, 10100, 780)
  {
  }

  // ----- Registers -----

  datatype State = Init | Delay | Idle | Activate | Read | ReadWait | Write0 | Precharge | Refresh

  datatype Command =
    | Nop
    | ActiveCmd(bank: nat, row: nat)
    | ReadCmd(bank: nat, col: nat)
    | WriteCmd(bank: nat, col: nat, data: Word, mask: Strobe)
    | PrechargeCmd(bank: nat)
    | PrechargeAll
    | RefreshCmd
    | LoadMode

  type FourFlags = s: seq<bool> | |s| == 4 witness [false, false, false, false]
  type FourRows = s: seq<nat> | |s| == 4 witness [0, 0, 0, 0]

  const NO_WORD: Word := [0, 0, 0, 0]

  datatype Core = Core(
    state: State, target: State, delayState: State, delay: nat,
    timer: nat, refresh: bool,
    open: FourFlags, row: FourRows, command: Command,
    rd0: bool, rd1: bool, rd2: bool, ack: bool,
    sample0: Word, sample: Word)

  function Reset(t: Timing): Core {
    Core(Init, Idle, Idle, 0, t.startTimer, false, [false, false, false, false], [0, 0, 0, 0], Nop,
         false, false, false, false, NO_WORD, NO_WORD)
  }

  // ----- Combinational logic -----

  predicate Hit(c: Core, r: Request) { c.open[BankOf(r.addr)] && RowOf(r.addr) == c.row[BankOf(r.addr)] }

  function Wanted(r: Request): State { if r.rd then Read else Write0 }

  predicate AnyOpen(c: Core) { c.open[0] || c.open[1] || c.open[2] || c.open[3] }

  /** Another read of the open row follows, with no refresh pending. */
  predicate ReadOn(c: Core, r: Request) { !c.refresh && r.Active() && r.rd && Hit(c, r) }

  /** next_state_r and target_state_r. */
  function Decide(c: Core, r: Request): (State, State) {
    match c.state
    case Init => (if c.refresh then Idle else Init, c.target)
    case Idle =>
      if c.refresh then (if AnyOpen(c) then Precharge else Refresh, Refresh)
      else if !r.Active() then (Idle, c.target)
      else if Hit(c, r) then (Wanted(r), c.target)
      else (if c.open[BankOf(r.addr)] then Precharge else Activate, Wanted(r))
    case Activate => (c.target, c.target)
    case Read => (ReadWait, c.target)
    case ReadWait => (if ReadOn(c, r) then Read else Idle, c.target)
    case Write0 => (Idle, c.target)
    case Precharge => (if c.target == Refresh then Refresh else Activate, c.target)
    case Refresh => (Idle, c.target)
    case Delay => (c.delayState, c.target)
  }

  const READ_LATENCY := 1

  /** delay_r, four bits wide. */
  function DelayFor(t: Timing, c: Core, r: Request): nat {
    match c.state
    case Activate => t.trcd % 16
    case ReadWait => if ReadOn(c, r) then 0 else READ_LATENCY
    case Precharge => t.trp % 16
    case Refresh => t.trfc % 16
    case Delay => (c.delay + 15) % 16
    case _ => 0
  }

  function Inverted(s: Strobe): Strobe { [!s[0], !s[1], !s[2], !s[3]] }

  /** The next value of the command register. */
  function CommandFor(c: Core, r: Request): Command {
    match c.state
    case Init =>
      if c.timer == 50 then c.command
      else if c.timer == 40 then PrechargeAll
      else if c.timer == 20 || c.timer == 30 then RefreshCmd
      else if c.timer == 10 then LoadMode
      else Nop
    case Activate => ActiveCmd(BankOf(r.addr), RowOf(r.addr))
    case Precharge => if c.target == Refresh then PrechargeAll else PrechargeCmd(BankOf(r.addr))
    case Refresh => RefreshCmd
    case Read => ReadCmd(BankOf(r.addr), ColOf(r.addr))
    case Write0 => WriteCmd(BankOf(r.addr), ColOf(r.addr), r.data, Inverted(r.wr))
    case _ => Nop
  }

  /** The open-row table after the cycle. */
  function OpenAfter(c: Core, r: Request): FourFlags {
    if c.state == Activate then c.open[BankOf(r.addr) := true]
    else if c.state == Precharge then
      if c.target == Refresh then [false, false, false, false] else c.open[BankOf(r.addr) := false]
    else c.open
  }

  /** inport_accept_o. */
  predicate Accepts(c: Core) { c.state == Read || c.state == Write0 }

  /** All registers one clock later; dq is what the data pins carry. */
  function Step(t: Timing, c: Core, r: Request, dq: Word): Core {
    var (next, target) := Decide(c, r);
    var delay := DelayFor(t, c, r);
    Core(
      if delay != 0 then Delay else next,
      target,
      if c.state != Delay && delay != 0 then next else c.delayState,
      delay,
      if c.timer == 0 then t.refreshCycles else c.timer - 1,
      if c.timer == 0 then true else if c.state == Refresh then false else c.refresh,
      OpenAfter(c, r),
      if c.state == Activate then c.row[BankOf(r.addr) := RowOf(r.addr)] else c.row,
      CommandFor(c, r),
      c.state == Read, c.rd0, c.rd1,
      c.state == Write0 || c.rd2,
      dq, c.sample0)
  }

  // ----- The clocked registers -----

  class SdramController {
    const t: Timing
    var state: State
    var target: State
    var delayState: State
    var delay: nat
    var timer: nat
    var refresh: bool
    var open: FourFlags
    var row: FourRows
    var command: Command
    var rd0: bool
    var rd1: bool
    var rd2: bool
    var ack: bool
    var sample0: Word
    var sample: Word

    function Registers(): Core
      reads this
    {
      Core(state, target, delayState, delay, timer, refresh, open, row, command, rd0, rd1, rd2, ack, sample0, sample)
    }

    /** Reset. */
    constructor (t: Timing)
      ensures this.t == t && Registers() == Reset(t)
    {
      this.t := t;
      state, target, delayState, delay := Init, Idle, Idle, 0;
      timer, refresh := t.startTimer, false;
      open, row, command := [false, false, false, false], [0, 0, 0, 0], Nop;
      rd0, rd1, rd2, ack := false, false, false, false;
      sample0, sample := NO_WORD, NO_WORD;
    }

    /** One rising clock edge. A register group is assigned only after every group
        that still reads its old value. */
    method Clock(r: Request, dq: Word)
      modifies this
      ensures Registers() == Step(t, old(Registers()), r, dq)
    {
      ghost var c := Registers();
      var next, nextTarget := NextState(r);
      var nextDelay := NextDelay(r);
      IssueCommand(r, c);
      Advance(c, dq, next, nextTarget, nextDelay);
    }

    /** The registers that do not depend on the request directly. */
    method Advance(ghost c: Core, dq: Word, next: State, nextTarget: State, nextDelay: nat)
      requires Registers() == c.(command := command, open := open, row := row)
      modifies this
      ensures command == old(command) && open == old(open) && row == old(row)
      ensures Registers() == Core(
        if nextDelay != 0 then Delay else next, nextTarget,
        if c.state != Delay && nextDelay != 0 then next else c.delayState, nextDelay,
        if c.timer == 0 then t.refreshCycles else c.timer - 1,
        if c.timer == 0 then true else if c.state == Refresh then false else c.refresh,
        open, row, command, c.state == Read, c.rd0, c.rd1, c.state == Write0 || c.rd2, dq, c.sample0)
    {
      ShiftPipeline(dq);
      CountRefresh();
      EnterState(next, nextTarget, nextDelay);
    }

    /** The state, target, delayed-state and delay registers. */
    method EnterState(next: State, nextTarget: State, nextDelay: nat)
      modifies `state, `target, `delayState, `delay
      ensures target == nextTarget && delay == nextDelay
      ensures state == if nextDelay != 0 then Delay else next
      ensures delayState == if old(state) != Delay && nextDelay != 0 then next else old(delayState)
    {
      target := nextTarget;
      if state != Delay && nextDelay != 0 { delayState := next; }
      if nextDelay != 0 { state := Delay; } else { state := next; }
      delay := nextDelay;
    }

    /** The refresh timer and the pending-refresh flag. */
    method CountRefresh()
      modifies `timer, `refresh
      ensures timer == if old(timer) == 0 then t.refreshCycles else old(timer) - 1
      ensures refresh == if old(timer) == 0 then true else if state == Refresh then false else old(refresh)
    {
      if timer == 0 { refresh := true; } else if state == Refresh { refresh := false; }
      timer := if timer == 0 then t.refreshCycles else timer - 1;
    }

    /** The record of reads under way, the acknowledgement and the sampled data. */
    method ShiftPipeline(dq: Word)
      modifies `rd0, `rd1, `rd2, `ack, `sample0, `sample
      ensures rd0 == (state == Read) && rd1 == old(rd0) && rd2 == old(rd1)
      ensures ack == (state == Write0 || old(rd2))
      ensures sample0 == dq && sample == old(sample0)
    {
      ack := state == Write0 || rd2;
      rd0, rd1, rd2 := state == Read, rd0, rd1;
      sample0, sample := dq, sample0;
    }

    /** The state machine block: both outputs keep their defaults unless assigned. */
    method NextState(r: Request) returns (next: State, nextTarget: State)
      ensures (next, nextTarget) == Decide(Registers(), r)
    {
      next, nextTarget := state, target;
      var bank := BankOf(r.addr);
      match state {
        case Init =>
          if refresh { next := Idle; }
        case Idle =>
          if refresh {
            if open[0] || open[1] || open[2] || open[3] { next := Precharge; } else { next := Refresh; }
            nextTarget := Refresh;
          } else if r.Active() {
            if open[bank] && RowOf(r.addr) == row[bank] {
              if !r.rd { next := Write0; } else { next := Read; }
            } else if open[bank] {
              next := Precharge;
              if !r.rd { nextTarget := Write0; } else { nextTarget := Read; }
            } else {
              next := Activate;
              if !r.rd { nextTarget := Write0; } else { nextTarget := Read; }
            }
          }
        case Activate => next := nextTarget;
        case Read => next := ReadWait;
        case ReadWait =>
          next := Idle;
          if !refresh && r.Active() && r.rd {
            if open[bank] && RowOf(r.addr) == row[bank] { next := Read; }
          }
        case Write0 => next := Idle;
        case Precharge =>
          if nextTarget == Refresh { next := Refresh; } else { next := Activate; }
        case Refresh => next := Idle;
        case Delay => next := delayState;
      }
    }

    /** The delay block. */
    method NextDelay(r: Request) returns (d: nat)
      ensures d == DelayFor(t, Registers(), r)
    {
      d := 0;
      var bank := BankOf(r.addr);
      if state == Activate {
        d := t.trcd % 16;
      } else if state == ReadWait {
        d := READ_LATENCY;
        if !refresh && r.Active() && r.rd {
          if open[bank] && RowOf(r.addr) == row[bank] { d := 0; }
        }
      } else if state == Precharge {
        d := t.trp % 16;
      } else if state == Refresh {
        d := t.trfc % 16;
      } else if state == Delay {
        d := (delay + 15) % 16;
      }
    }

    /** The command block: the command register and the open-row table. */
    method IssueCommand(r: Request, ghost c: Core)
      requires c == Registers()
      modifies `command, `open, `row
      ensures command == CommandFor(c, r)
      ensures open == OpenAfter(c, r)
      ensures row == if c.state == Activate then c.row[BankOf(r.addr) := RowOf(r.addr)] else c.row
    {
      var bank := BankOf(r.addr);
      if state == Init {
        if timer == 50 {
        } else if timer == 40 {
          command := PrechargeAll;
        } else if timer == 20 || timer == 30 {
          command := RefreshCmd;
        } else if timer == 10 {
          command := LoadMode;
        } else {
          command := Nop;
        }
      } else if state == Activate {
        command := ActiveCmd(bank, RowOf(r.addr));
        row := row[bank := RowOf(r.addr)];
        open := open[bank := true];
      } else if state == Precharge {
        if target == Refresh {
          command := PrechargeAll;
          open := [false, false, false, false];
        } else {
          command := PrechargeCmd(bank);
          open := open[bank := false];
        }
      } else if state == Refresh {
        command := RefreshCmd;
      } else if state == Read {
        command := ReadCmd(bank, ColOf(r.addr));
      } else if state == Write0 {
        command := WriteCmd(bank, ColOf(r.addr), r.data, Inverted(r.wr));
      } else {
        command := Nop;
      }
    }
  }
}
