// What the SDRAM controller keeps on every run: commands fit the state of the
// banks, the required cycles pass between them, a pending refresh is not
// starved, and every accepted request is acknowledged once, in order
// (vsrc/perip/sdram/core_sdram_axi4/sdram_axi_core.v).
module SdramProtocol {
  import opened SdramCore

  // ----- Runs -----

  datatype Input = Input(req: Request, dq: Word)

  ghost predicate StepsAt(t: Timing, cs: nat -> Core, ins: nat -> Input, n: nat) {
    cs(n + 1) == Step(t, cs(n), ins(n).req, ins(n).dq)
  }

  /** The registers of cycle n are cs(n), the inputs ins(n). */
  ghost predicate IsRun(t: Timing, cs: nat -> Core, ins: nat -> Input) {
    t.Valid() && cs(0) == Reset(t) && forall n: nat :: StepsAt(t, cs, ins, n)
  }

  /** The same access; the write data matter only to a write. */
  predicate SameRequest(r: Request, next: Request) {
    next.wr == r.wr && next.rd == r.rd && next.addr == r.addr && (AnyLane(r.wr) ==> next.data == r.data)
  }

  ghost predicate HeldAt(cs: nat -> Core, ins: nat -> Input, n: nat) {
    ins(n).req.Active() && !Accepts(cs(n)) ==> SameRequest(ins(n).req, ins(n + 1).req)
  }

  /** A request stays unchanged until it is accepted. */
  ghost predicate RequestsHeld(cs: nat -> Core, ins: nat -> Input) {
    forall n: nat :: HeldAt(cs, ins, n)
  }

  // ----- What every state carries -----

  function Max(a: nat, b: nat): nat { if a > b then a else b }

  /** Where the controller goes when it is not delayed. */
  function Goal(c: Core): State { if c.state == Delay then c.delayState else c.state }

  predicate ToAccess(s: State) { s == Read || s == Write0 }

  /** The shape of the registers, whatever the requests do. */
  ghost predicate Shape(t: Timing, c: Core) {
    && c.timer <= Max(t.startTimer, t.refreshCycles)
    && (c.state == Init ==>
          !AnyOpen(c) && (c.timer > 40 ==> c.command == Nop) && (c.refresh ==> c.timer == t.refreshCycles))
    && (Goal(c) == Activate ==> ToAccess(c.target))
    && (c.state == Precharge ==> ToAccess(c.target) || c.target == Refresh)
    && (Goal(c) == Refresh ==> !AnyOpen(c))
    && (c.state == Delay ==>
          match c.delayState
          case Idle => 1 <= c.delay <= Max(t.trfc, READ_LATENCY)
          case Activate => 1 <= c.delay <= t.trp
          case Refresh => 1 <= c.delay <= t.trp
          case Read => 1 <= c.delay <= t.trcd
          case Write0 => 1 <= c.delay <= t.trcd
          case _ => false)
  }

  /** The request the controller is working for is still there. */
  ghost predicate Serves(c: Core, r: Request) {
    && (Goal(c) == Activate ==> r.Active() && c.target == Wanted(r) && !c.open[BankOf(r.addr)])
    && (ToAccess(Goal(c)) ==> r.Active() && Goal(c) == Wanted(r) && Hit(c, r))
    && (c.state == Precharge && c.target != Refresh ==> r.Active() && c.target == Wanted(r) && c.open[BankOf(r.addr)])
  }

  lemma ShapeKeptInDelay(t: Timing, c: Core, r: Request, dq: Word)
    requires t.Valid() && Shape(t, c) && c.state == Delay
    ensures Shape(t, Step(t, c, r, dq))
  {
    assert DelayFor(t, c, r) == c.delay - 1;
  }

  lemma ShapeKeptElsewhere(t: Timing, c: Core, r: Request, dq: Word)
    requires t.Valid() && Shape(t, c) && c.state != Delay
    ensures Shape(t, Step(t, c, r, dq))
  {
  }

  lemma ShapeKept(t: Timing, c: Core, r: Request, dq: Word)
    requires t.Valid() && Shape(t, c)
    ensures Shape(t, Step(t, c, r, dq))
  {
    if c.state == Delay { ShapeKeptInDelay(t, c, r, dq); } else { ShapeKeptElsewhere(t, c, r, dq); }
  }

  lemma ServiceKept(t: Timing, c: Core, r: Request, dq: Word, next: Request)
    requires t.Valid() && Shape(t, c) && Serves(c, r)
    requires r.Active() && !Accepts(c) ==> SameRequest(r, next)
    ensures Serves(Step(t, c, r, dq), next)
  {
  }

  lemma {:induction false} ShapeHolds(t: Timing, cs: nat -> Core, ins: nat -> Input, n: nat)
    requires IsRun(t, cs, ins)
    ensures Shape(t, cs(n))
  {
    if n > 0 {
      ShapeHolds(t, cs, ins, n - 1);
      assert StepsAt(t, cs, ins, n - 1);
      ShapeKept(t, cs(n - 1), ins(n - 1).req, ins(n - 1).dq);
    }
  }

  lemma {:induction false} ServiceHolds(t: Timing, cs: nat -> Core, ins: nat -> Input, n: nat)
    requires IsRun(t, cs, ins) && RequestsHeld(cs, ins)
    ensures Serves(cs(n), ins(n).req)
  {
    if n > 0 {
      ShapeHolds(t, cs, ins, n - 1);
      ServiceHolds(t, cs, ins, n - 1);
      assert StepsAt(t, cs, ins, n - 1) && HeldAt(cs, ins, n - 1);
      ServiceKept(t, cs(n - 1), ins(n - 1).req, ins(n - 1).dq, ins(n).req);
    }
  }

  // ----- Commands against the banks -----

  datatype Row = Closed | Open(row: nat)
  type Table = s: seq<Row> | |s| == 4 witness [Closed, Closed, Closed, Closed]

  /** The banks of a memory chip after a command; a bank number has two bits. */
  function After(k: Table, cmd: Command): Table {
    match cmd
    case ActiveCmd(b, row) => if b < 4 then k[b := Open(row)] else k
    case PrechargeCmd(b) => if b < 4 then k[b := Closed] else k
    case PrechargeAll => [Closed, Closed, Closed, Closed]
    case _ => k
  }

  /** The banks once every command up to cycle n has been seen. */
  function BanksAt(cs: nat -> Core, n: nat): Table {
    if n == 0 then [Closed, Closed, Closed, Closed] else After(BanksAt(cs, n - 1), cs(n).command)
  }

  function TableOf(c: Core): Table {
    seq(4, b requires 0 <= b < 4 => if c.open[b] then Open(c.row[b]) else Closed)
  }

  /** Rows are opened in closed banks only, accesses find the row of their
      address open, and refreshes find every bank closed. */
  predicate Allowed(k: Table, cmd: Command, r: Request) {
    match cmd
    case ActiveCmd(b, row) => b == BankOf(r.addr) && row == RowOf(r.addr) && k[b] == Closed
    case ReadCmd(b, col) => r.rd && b == BankOf(r.addr) && col == ColOf(r.addr) && k[b] == Open(RowOf(r.addr))
    case WriteCmd(b, col, data, mask) =>
      !r.rd && b == BankOf(r.addr) && col == ColOf(r.addr) && k[b] == Open(RowOf(r.addr))
      && data == r.data && mask == Inverted(r.wr)
    case RefreshCmd => forall b :: 0 <= b < 4 ==> k[b] == Closed
    case LoadMode => forall b :: 0 <= b < 4 ==> k[b] == Closed
    case PrechargeCmd(b) => b < 4
    case _ => true
  }

  lemma TableKept(t: Timing, c: Core, r: Request, dq: Word)
    requires t.Valid() && Shape(t, c)
    ensures TableOf(Step(t, c, r, dq)) == After(TableOf(c), Step(t, c, r, dq).command)
  {
    var d := Step(t, c, r, dq);
    forall b | 0 <= b < 4 ensures TableOf(d)[b] == After(TableOf(c), d.command)[b] {
    }
  }

  lemma {:induction false} TableIsTrue(t: Timing, cs: nat -> Core, ins: nat -> Input, n: nat)
    requires IsRun(t, cs, ins)
    ensures BanksAt(cs, n) == TableOf(cs(n))
  {
    if n > 0 {
      TableIsTrue(t, cs, ins, n - 1);
      ShapeHolds(t, cs, ins, n - 1);
      assert StepsAt(t, cs, ins, n - 1);
      TableKept(t, cs(n - 1), ins(n - 1).req, ins(n - 1).dq);
    }
  }

  lemma CommandAllowed(t: Timing, c: Core, r: Request)
    requires t.Valid() && Shape(t, c) && Serves(c, r)
    ensures Allowed(TableOf(c), CommandFor(c, r), r)
  {
  }

  /** Every command ever issued is one that the banks, as the commands before it
      left them, allow. */
  lemma CommandsAllowed(t: Timing, cs: nat -> Core, ins: nat -> Input, n: nat)
    requires IsRun(t, cs, ins) && RequestsHeld(cs, ins)
    ensures Allowed(BanksAt(cs, n), cs(n + 1).command, ins(n).req)
  {
    TableIsTrue(t, cs, ins, n);
    ShapeHolds(t, cs, ins, n);
    ServiceHolds(t, cs, ins, n);
    assert StepsAt(t, cs, ins, n);
    CommandAllowed(t, cs(n), ins(n).req);
  }

  // ----- Cycles between commands -----

  function Remaining(c: Core): nat { if c.state == Delay then c.delay else 0 }

  /** age cycles have passed since a command that must be followed by limit quiet
      ones; at power-up such commands are timed by the refresh timer. */
  predicate Waited(c: Core, age: nat, start: nat, limit: nat) {
    if c.state == Init then (if c.refresh then age > start else c.timer + age == start)
    else age + Remaining(c) > limit
  }

  lemma WaitingGoesOn(t: Timing, c: Core, r: Request, dq: Word, age: nat, start: nat, limit: nat)
    requires t.Valid() && Shape(t, c) && limit < start && Waited(c, age, start, limit)
    ensures Waited(Step(t, c, r, dq), age + 1, start, limit)
  {
  }

  predicate IsPrecharge(cmd: Command) { cmd.PrechargeAll? || cmd.PrechargeCmd? }
  predicate OpensOrRefreshes(cmd: Command) { cmd.ActiveCmd? || cmd.RefreshCmd? }

  /** The commands that start a waiting time, with that time. */
  predicate Starts(t: Timing, cmd: Command, limit: nat) {
    match cmd
    case PrechargeAll => limit == t.trp
    case PrechargeCmd(_) => limit == t.trp
    case RefreshCmd => limit == t.trfc
    case ActiveCmd(_, _) => limit == t.trcd
    case _ => false
  }

  /** The timer value at which a power-up command is issued. */
  function StartOf(c: Core): nat { if c.state == Init then c.timer else 20 }

  lemma WaitingBegins(t: Timing, c: Core, r: Request, dq: Word, limit: nat)
    requires t.Valid() && Shape(t, c) && Starts(t, Step(t, c, r, dq).command, limit)
    ensures limit < StartOf(c) && Waited(Step(t, c, r, dq), 1, StartOf(c), limit)
  {
  }

  lemma {:induction false} WaitedFor(t: Timing, cs: nat -> Core, ins: nat -> Input, i: nat, j: nat, limit: nat)
    requires IsRun(t, cs, ins) && i < j && Starts(t, cs(i + 1).command, limit)
    ensures limit < StartOf(cs(i)) && Waited(cs(j), j - i, StartOf(cs(i)), limit)
    decreases j
  {
    if j == i + 1 {
      ShapeHolds(t, cs, ins, i);
      assert StepsAt(t, cs, ins, i);
      WaitingBegins(t, cs(i), ins(i).req, ins(i).dq, limit);
    } else {
      WaitedFor(t, cs, ins, i, j - 1, limit);
      WaitedOn(t, cs, ins, j - 1, j - 1 - i, StartOf(cs(i)), limit);
    }
  }

  lemma WaitedOn(t: Timing, cs: nat -> Core, ins: nat -> Input, n: nat, elapsed: nat, start: nat, limit: nat)
    requires IsRun(t, cs, ins) && Waited(cs(n), elapsed, start, limit) && limit < start
    ensures Waited(cs(n + 1), elapsed + 1, start, limit)
  {
    ShapeHolds(t, cs, ins, n);
    assert StepsAt(t, cs, ins, n);
    WaitingGoesOn(t, cs(n), ins(n).req, ins(n).dq, elapsed, start, limit);
  }

  /** At least tRP cycles from a precharge to the next activation of the bank or
      refresh, tRFC from a refresh to the next one or to an activation, and tRCD
      from an activation to an access, for any two such commands of a run. */
  lemma CommandsAreSpaced(t: Timing, cs: nat -> Core, ins: nat -> Input, i: nat, j: nat)
    requires IsRun(t, cs, ins) && i < j
    ensures IsPrecharge(cs(i + 1).command) && OpensOrRefreshes(cs(j + 1).command) ==> j - i >= t.trp
    ensures cs(i + 1).command.RefreshCmd? && OpensOrRefreshes(cs(j + 1).command) ==> j - i >= t.trfc
    ensures cs(i + 1).command.ActiveCmd? && (cs(j + 1).command.ReadCmd? || cs(j + 1).command.WriteCmd?) ==>
      j - i > t.trcd
  {
    ShapeHolds(t, cs, ins, j);
    ShapeHolds(t, cs, ins, i);
    assert StepsAt(t, cs, ins, j) && StepsAt(t, cs, ins, i);
    var cmd := cs(i + 1).command;
    if IsPrecharge(cmd) {
      WaitedFor(t, cs, ins, i, j, t.trp);
    } else if cmd.RefreshCmd? {
      WaitedFor(t, cs, ins, i, j, t.trfc);
    } else if cmd.ActiveCmd? {
      WaitedFor(t, cs, ins, i, j, t.trcd);
    }
  }

  // ----- Refreshes -----

  /** Cycles until a refresh that is pending starts. */
  function Rank(t: Timing, c: Core): nat {
    match c.state
    case Refresh => 0
    case Idle => if AnyOpen(c) then t.trp + 2 else 1
    case Read => t.trp + 5
    case ReadWait => t.trp + 4
    case Write0 => t.trp + 3
    case Activate => 1 + t.trcd + (t.trp + 5)
    case Precharge => if c.target == Refresh then t.trp + 1 else (t.trp + 1) + (1 + t.trcd + (t.trp + 5))
    case Delay =>
      (match c.delayState
       case Refresh => c.delay
       case Idle => c.delay + t.trp + 2
       case Activate => c.delay + (1 + t.trcd + (t.trp + 5))
       case _ => c.delay + t.trp + 5)
    case Init => 0
  }

  /** The longest a pending refresh waits once the controller is initialised. */
  function RefreshBound(t: Timing): nat { Max(t.trfc + t.trp + 2, 2 * t.trp + t.trcd + 7) }

  lemma RankIsBounded(t: Timing, c: Core)
    requires t.Valid() && Shape(t, c)
    ensures Rank(t, c) <= RefreshBound(t)
  {
  }

  /** Whatever is requested, every cycle brings a pending refresh nearer. */
  lemma RefreshComesNearer(t: Timing, c: Core, r: Request, dq: Word)
    requires t.Valid() && Shape(t, c) && c.refresh && c.state != Refresh && c.state != Init
    ensures var d := Step(t, c, r, dq); d.refresh && d.state != Init && Rank(t, d) < Rank(t, c)
  {
    if c.state == Delay { assert DelayFor(t, c, r) == c.delay - 1; }
  }

  lemma {:induction false} PendingRefreshStarts(t: Timing, cs: nat -> Core, ins: nat -> Input, n: nat) returns (m: nat)
    requires IsRun(t, cs, ins) && cs(n).refresh && cs(n).state != Init
    ensures n <= m <= n + Rank(t, cs(n)) && m <= n + RefreshBound(t) && cs(m).state == Refresh
    decreases Rank(t, cs(n))
  {
    ShapeHolds(t, cs, ins, n);
    RankIsBounded(t, cs(n));
    m := n;
    if cs(n).state != Refresh {
      assert StepsAt(t, cs, ins, n);
      RefreshComesNearer(t, cs(n), ins(n).req, ins(n).dq);
      m := PendingRefreshStarts(t, cs, ins, n + 1);
    }
  }

  lemma {:induction false} TimerRunsOut(t: Timing, cs: nat -> Core, ins: nat -> Input, n: nat) returns (m: nat)
    requires IsRun(t, cs, ins) && cs(n).state != Init
    ensures m == n + cs(n).timer + 1 && cs(m).refresh && cs(m).state != Init
    decreases cs(n).timer
  {
    ShapeHolds(t, cs, ins, n);
    assert StepsAt(t, cs, ins, n);
    m := n + 1;
    if cs(n).timer > 0 { m := TimerRunsOut(t, cs, ins, n + 1); }
  }

  predicate TimerRuns(t: Timing, c: Core, n: nat) {
    if c.state == Init && !c.refresh then n + c.timer == t.startTimer
    else n > t.startTimer && c.timer <= t.refreshCycles
  }

  lemma TimerStep(t: Timing, c: Core, r: Request, dq: Word, n: nat)
    requires t.Valid() && Shape(t, c) && TimerRuns(t, c, n)
    ensures TimerRuns(t, Step(t, c, r, dq), n + 1)
  {
  }

  /** The timer counts down to the end of the initialisation once, then from the
      refresh period on. */
  lemma {:induction false} TimerAfterInit(t: Timing, cs: nat -> Core, ins: nat -> Input, n: nat)
    requires IsRun(t, cs, ins)
    ensures TimerRuns(t, cs(n), n)
  {
    if n > 0 {
      TimerAfterInit(t, cs, ins, n - 1);
      ShapeHolds(t, cs, ins, n - 1);
      assert StepsAt(t, cs, ins, n - 1);
      TimerStep(t, cs(n - 1), ins(n - 1).req, ins(n - 1).dq, n - 1);
    }
  }

  /** Consecutive refreshes: after any cycle in which one starts, the next one
      starts at most the refresh period plus a constant later, whatever the
      request stream does. */
  lemma RefreshesAreFrequent(t: Timing, cs: nat -> Core, ins: nat -> Input, n: nat) returns (m: nat)
    requires IsRun(t, cs, ins) && cs(n).state == Refresh
    ensures n < m <= n + t.refreshCycles + 1 + RefreshBound(t) && cs(m).state == Refresh
    ensures t == AtMegahertz(100) ==> m - n <= 794
  {
    TimerAfterInit(t, cs, ins, n);
    var due := TimerRunsOut(t, cs, ins, n);
    m := PendingRefreshStarts(t, cs, ins, due);
    InstantiatedClock();
  }

  /** Initialisation ends, and the first refresh follows. */
  lemma FirstRefresh(t: Timing, cs: nat -> Core, ins: nat -> Input) returns (m: nat)
    requires IsRun(t, cs, ins)
    ensures m <= t.startTimer + 2 + RefreshBound(t) && cs(m).state == Refresh
  {
    var n := t.startTimer;
    InitialCountdown(t, cs, ins, n);
    assert StepsAt(t, cs, ins, n) && StepsAt(t, cs, ins, n + 1);
    m := PendingRefreshStarts(t, cs, ins, n + 2);
  }

  lemma {:induction false} InitialCountdown(t: Timing, cs: nat -> Core, ins: nat -> Input, n: nat)
    requires IsRun(t, cs, ins) && n <= t.startTimer
    ensures cs(n).state == Init && !cs(n).refresh && cs(n).timer == t.startTimer - n && cs(n).delay == 0
  {
    if n > 0 {
      InitialCountdown(t, cs, ins, n - 1);
      assert StepsAt(t, cs, ins, n - 1);
    }
  }

  // ----- Power-up -----

  /** The power-up sequence: all banks precharged, two refreshes, then the mode
      register, ten cycles apart, at fixed cycles after reset; nothing else is
      issued before. */
  lemma PowerUp(t: Timing, cs: nat -> Core, ins: nat -> Input)
    requires IsRun(t, cs, ins)
    ensures var first := t.startTimer - 39;
            && cs(first).command == PrechargeAll
            && cs(first + 10).command == RefreshCmd && cs(first + 20).command == RefreshCmd
            && cs(first + 30).command == LoadMode
            && forall n: nat :: n <= first + 30 && n !in {first, first + 10, first + 20, first + 30} ==>
                 cs(n).command == Nop
  {
    var first := t.startTimer - 39;
    forall n: nat | n <= first + 30
      ensures cs(n).command ==
        if n == first then PrechargeAll
        else if n == first + 10 || n == first + 20 then RefreshCmd
        else if n == first + 30 then LoadMode else Nop
    {
      PowerUpAt(t, cs, ins, n);
    }
  }

  /** The command register counts with the timer. */
  lemma {:induction false} PowerUpAt(t: Timing, cs: nat -> Core, ins: nat -> Input, n: nat)
    requires IsRun(t, cs, ins) && n <= t.startTimer
    ensures cs(n).command ==
      if n == t.startTimer - 39 then PrechargeAll
      else if n == t.startTimer - 29 || n == t.startTimer - 19 then RefreshCmd
      else if n == t.startTimer - 9 then LoadMode else Nop
  {
    if n > 0 {
      PowerUpAt(t, cs, ins, n - 1);
      InitialCountdown(t, cs, ins, n - 1);
      assert StepsAt(t, cs, ins, n - 1);
    }
  }

  // ----- Acceptance -----

  /** A refresh between two commands of the service: precharge, refresh, delays. */
  function RefreshCost(t: Timing): nat { t.trp + t.trfc + 3 }

  /** Cycles until a request is accepted, if the timer does not run out before. */
  function AcceptRank(t: Timing, c: Core): nat {
    var idle := t.trp + t.trcd + 3 + if c.refresh then RefreshCost(t) else 0;
    var refreshed := t.trfc + 1 + (t.trp + t.trcd + 3);
    match c.state
    case Idle => idle
    case ReadWait => 1 + READ_LATENCY + idle
    case Activate => t.trcd + 1
    case Precharge => t.trp + 1 + if c.target == Refresh then refreshed else t.trcd + 1
    case Refresh => refreshed
    case Delay =>
      c.delay + (match c.delayState
                 case Idle => idle
                 case Activate => t.trcd + 1
                 case Refresh => refreshed
                 case _ => 0)
    case _ => 0
  }

  /** Every cycle brings a request nearer to its acceptance; when the timer runs
      out, one more refresh may come first. */
  lemma AcceptComesNearer(t: Timing, c: Core, r: Request, dq: Word)
    requires t.Valid() && Shape(t, c) && r.Active() && !Accepts(c) && c.state != Init
    ensures var d := Step(t, c, r, dq);
            d.state != Init && AcceptRank(t, d) < AcceptRank(t, c) + if c.timer == 0 then RefreshCost(t) else 0
  {
    if c.state == Delay { AcceptNearsInDelay(t, c, r, dq); } else { AcceptNearsElsewhere(t, c, r, dq); }
  }

  lemma AcceptNearsInDelay(t: Timing, c: Core, r: Request, dq: Word)
    requires t.Valid() && Shape(t, c) && c.state == Delay
    ensures var d := Step(t, c, r, dq);
            d.state != Init && AcceptRank(t, d) < AcceptRank(t, c) + if c.timer == 0 then RefreshCost(t) else 0
  {
    assert DelayFor(t, c, r) == c.delay - 1;
  }

  lemma AcceptNearsElsewhere(t: Timing, c: Core, r: Request, dq: Word)
    requires t.Valid() && Shape(t, c) && r.Active() && !Accepts(c) && c.state != Init && c.state != Delay
    ensures var d := Step(t, c, r, dq);
            d.state != Init && AcceptRank(t, d) < AcceptRank(t, c) + if c.timer == 0 then RefreshCost(t) else 0
  {
  }

  /** The refreshes that may come first within the next rank cycles, in cycles. */
  function RefreshSlack(t: Timing, timer: nat, rank: nat): nat
    requires t.Valid()
    decreases rank - timer
  {
    if timer > rank then 0
    else RefreshCost(t) + RefreshSlack(t, timer + t.refreshCycles + 1, rank + RefreshCost(t))
  }

  lemma {:induction false} SlackGrows(t: Timing, timer: nat, rank: nat, more: nat)
    requires t.Valid() && rank <= more
    ensures RefreshSlack(t, timer, rank) <= RefreshSlack(t, timer, more)
    decreases rank - timer
  {
    if timer <= rank { SlackGrows(t, timer + t.refreshCycles + 1, rank + RefreshCost(t), more + RefreshCost(t)); }
  }

  lemma {:induction false} SlackMoves(t: Timing, timer: nat, rank: nat)
    requires t.Valid()
    ensures RefreshSlack(t, timer + 1, rank + 1) == RefreshSlack(t, timer, rank)
    decreases rank - timer
  {
    if timer <= rank { SlackMoves(t, timer + t.refreshCycles + 1, rank + RefreshCost(t)); }
  }

  lemma {:induction false} SlackShrinks(t: Timing, timer: nat, later: nat, rank: nat)
    requires t.Valid() && timer <= later
    ensures RefreshSlack(t, later, rank) <= RefreshSlack(t, timer, rank)
    decreases rank - timer
  {
    if later <= rank {
      SlackShrinks(t, timer + t.refreshCycles + 1, later + t.refreshCycles + 1, rank + RefreshCost(t));
    }
  }

  function AcceptBound(t: Timing): nat
    requires t.Valid()
  {
    var rank := Max(t.trfc, 1 + READ_LATENCY) + RefreshCost(t) + t.trp + t.trcd + 3;
    rank + RefreshSlack(t, 0, rank)
  }

  lemma RankBelow(t: Timing, c: Core)
    requires t.Valid() && Shape(t, c)
    ensures AcceptRank(t, c) <= Max(t.trfc, 1 + READ_LATENCY) + RefreshCost(t) + t.trp + t.trcd + 3
  {
  }

  lemma AcceptIsBounded(t: Timing, c: Core)
    requires t.Valid() && Shape(t, c)
    ensures AcceptWait(t, c) <= AcceptBound(t)
  {
    var rank := Max(t.trfc, 1 + READ_LATENCY) + RefreshCost(t) + t.trp + t.trcd + 3;
    RankBelow(t, c);
    SlackShrinks(t, 0, c.timer, AcceptRank(t, c));
    SlackGrows(t, 0, AcceptRank(t, c), rank);
  }

  /** A rank that falls but for refreshes falls together with its slack. */
  lemma SlackPays(t: Timing, timer: nat, rank: nat, nextTimer: nat, nextRank: nat)
    requires t.Valid() && nextTimer == (if timer == 0 then t.refreshCycles else timer - 1)
    requires nextRank < rank + if timer == 0 then RefreshCost(t) else 0
    ensures nextRank + RefreshSlack(t, nextTimer, nextRank) < rank + RefreshSlack(t, timer, rank)
  {
    var most := rank + if timer == 0 then RefreshCost(t) else 0;
    SlackGrows(t, nextTimer, nextRank, most - 1);
    SlackMoves(t, nextTimer, most - 1);
  }

  /** The cycles that remain at most. */
  function AcceptWait(t: Timing, c: Core): nat
    requires t.Valid()
  {
    AcceptRank(t, c) + RefreshSlack(t, c.timer, AcceptRank(t, c))
  }

  lemma AcceptStep(t: Timing, c: Core, r: Request, dq: Word)
    requires t.Valid() && Shape(t, c) && r.Active() && !Accepts(c) && c.state != Init
    ensures Step(t, c, r, dq).state != Init && AcceptWait(t, Step(t, c, r, dq)) < AcceptWait(t, c)
  {
    var d := Step(t, c, r, dq);
    AcceptComesNearer(t, c, r, dq);
    SlackPays(t, c.timer, AcceptRank(t, c), d.timer, AcceptRank(t, d));
  }

  /** A request that is held is accepted within a fixed number of cycles once the
      controller is initialised, whatever refreshes fall due. */
  lemma {:induction false} HeldIsAccepted(t: Timing, cs: nat -> Core, ins: nat -> Input, n: nat) returns (m: nat)
    requires IsRun(t, cs, ins) && RequestsHeld(cs, ins) && ins(n).req.Active() && cs(n).state != Init
    ensures n <= m <= n + AcceptWait(t, cs(n))
    ensures m <= n + AcceptBound(t) && Accepts(cs(m)) && SameRequest(ins(n).req, ins(m).req)
    ensures forall k :: n <= k < m ==> !Accepts(cs(k))
    decreases AcceptWait(t, cs(n))
  {
    ShapeHolds(t, cs, ins, n);
    AcceptIsBounded(t, cs(n));
    m := n;
    if !Accepts(cs(n)) {
      assert StepsAt(t, cs, ins, n) && HeldAt(cs, ins, n);
      AcceptStep(t, cs(n), ins(n).req, ins(n).dq);
      m := HeldIsAccepted(t, cs, ins, n + 1);
    }
  }

  /** Initialisation happens once. */
  lemma StaysStarted(t: Timing, c: Core, r: Request, dq: Word)
    requires t.Valid() && Shape(t, c) && c.state != Init
    ensures Step(t, c, r, dq).state != Init
  {
  }

  /** 35 cycles as instantiated. */
  lemma InstantiatedAcceptance()
    ensures AtMegahertz(100).Valid() && AcceptBound(AtMegahertz(100)) == 35
  {
    InstantiatedClock();
    var t := AtMegahertz(100);
    assert RefreshSlack(t, t.refreshCycles + 1, 24 + RefreshCost(t)) == 0;
  }

  // ----- Acknowledgements -----

  /** Reads under way are where the state machine left them. */
  predicate Pipelined(c: Core) {
    && (c.rd0 <==> c.state == ReadWait)
    && (c.rd1 ==> c.state == Read || (c.state == Delay && c.delayState == Idle && c.delay == READ_LATENCY))
    && (c.rd2 ==> c.state == ReadWait || c.state == Idle)
  }

  lemma PipelineKept(t: Timing, c: Core, r: Request, dq: Word)
    requires t.Valid() && Shape(t, c) && Pipelined(c)
    ensures Pipelined(Step(t, c, r, dq))
  {
  }

  lemma {:induction false} PipelineHolds(t: Timing, cs: nat -> Core, ins: nat -> Input, n: nat)
    requires IsRun(t, cs, ins)
    ensures Pipelined(cs(n))
  {
    if n > 0 {
      PipelineHolds(t, cs, ins, n - 1);
      ShapeHolds(t, cs, ins, n - 1);
      assert StepsAt(t, cs, ins, n - 1);
      PipelineKept(t, cs(n - 1), ins(n - 1).req, ins(n - 1).dq);
    }
  }

  /** The cycle in which the request accepted in cycle n is acknowledged. */
  function AckCycle(cs: nat -> Core, n: nat): nat { if cs(n).state == Read then n + 4 else n + 1 }

  lemma {:induction false} ReadsMoveOn(t: Timing, cs: nat -> Core, ins: nat -> Input, n: nat)
    requires IsRun(t, cs, ins)
    ensures cs(n).rd0 <==> n >= 1 && cs(n - 1).state == Read
    ensures cs(n).rd1 <==> n >= 2 && cs(n - 2).state == Read
    ensures cs(n).rd2 <==> n >= 3 && cs(n - 3).state == Read
    ensures cs(n).ack <==> (n >= 1 && cs(n - 1).state == Write0) || (n >= 4 && cs(n - 4).state == Read)
  {
    if n > 0 {
      ReadsMoveOn(t, cs, ins, n - 1);
      assert StepsAt(t, cs, ins, n - 1);
    }
  }

  /** Every accepted request is acknowledged in its cycle. */
  lemma AckArrives(t: Timing, cs: nat -> Core, ins: nat -> Input, i: nat)
    requires IsRun(t, cs, ins) && Accepts(cs(i))
    ensures cs(AckCycle(cs, i)).ack
  {
    ReadsMoveOn(t, cs, ins, AckCycle(cs, i));
  }

  /** Every acknowledgement belongs to a request accepted earlier. */
  lemma AckOwner(t: Timing, cs: nat -> Core, ins: nat -> Input, n: nat) returns (i: nat)
    requires IsRun(t, cs, ins) && cs(n).ack
    ensures i < n && Accepts(cs(i)) && AckCycle(cs, i) == n
  {
    ReadsMoveOn(t, cs, ins, n);
    i := if n >= 1 && cs(n - 1).state == Write0 then n - 1 else n - 4;
  }

  /** Acknowledgements come in the order of acceptance, never two in one cycle. */
  lemma AcksInOrder(t: Timing, cs: nat -> Core, ins: nat -> Input, i: nat, j: nat)
    requires IsRun(t, cs, ins) && i < j && Accepts(cs(i)) && Accepts(cs(j))
    ensures AckCycle(cs, i) < AckCycle(cs, j)
  {
    if j <= i + 3 {
      ReadsMoveOn(t, cs, ins, j);
      PipelineHolds(t, cs, ins, j);
    }
  }

  function Bit(b: bool): nat { if b then 1 else 0 }

  /** Requests accepted and not yet acknowledged. */
  function InFlight(c: Core): nat { Bit(c.rd0) + Bit(c.rd1) + Bit(c.rd2) + Bit(c.ack) }

  /** Acceptance adds one, acknowledgement takes one away, and nothing else changes the number. */
  lemma InFlightBalance(t: Timing, c: Core, r: Request, dq: Word)
    requires Pipelined(c)
    ensures InFlight(Step(t, c, r, dq)) + Bit(c.ack) == InFlight(c) + Bit(Accepts(c))
    ensures InFlight(c) <= 3
  {
  }
}
