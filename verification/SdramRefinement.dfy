// Controller and memory array together behave as one flat memory of 32 MB
// (vsrc/perip/sdram/core_sdram_axi4/sdram_axi_core.v, csrc/memory/mmio.cpp).
module SdramRefinement {
  import opened SdramCore
  import opened SdramProtocol
  import opened SdramMemory

  // ----- The flat memory -----

  type Flat = s: seq<Byte> | |s| == MEMORY witness seq(MEMORY, i => 0)

  function FlatWord(f: Flat, addr: nat): Word { WordAt(f, Base(addr)) }

  function FlatWrite(f: Flat, r: Request): Flat { PutLanes(f, Base(r.addr), r.data, Inverted(r.wr)) }

  /** The flat memory before cycle n: every write accepted earlier has been applied. */
  function FlatAt(f: Flat, cs: nat -> Core, ins: nat -> Input, n: nat): Flat {
    if n == 0 then f
    else if cs(n - 1).state == Write0 then FlatWrite(FlatAt(f, cs, ins, n - 1), ins(n - 1).req)
    else FlatAt(f, cs, ins, n - 1)
  }

  /** The cells hold the flat memory. */
  ghost predicate Holds(cells: seq<Byte>, f: Flat) {
    |cells| == CELLS && forall a: nat :: a < MEMORY ==> cells[Place(a)] == f[a]
  }

  lemma BaseOfByte(a: nat)
    requires a < MEMORY
    ensures a == Base(a) + a % 4
  {
  }

  lemma WordCellAligned(a: nat)
    ensures WordCell(a) % 4 == 0
  {
  }

  /** A masked write touches a byte of the flat memory and its cell alike. */
  lemma SameLane(a: nat, addr: nat)
    requires a < MEMORY
    ensures Base(addr) <= a < Base(addr) + 4 <==> WordCell(addr) <= Place(a) < WordCell(addr) + 4
    ensures Base(addr) <= a < Base(addr) + 4 ==> a - Base(addr) == Place(a) - WordCell(addr)
  {
    BaseOfByte(a);
    WordCellAligned(a);
    WordCellAligned(addr);
    if Base(a) == Base(addr) { WordOfBase(a, addr); } else { WordsDiffer(a, addr); }
    LanesMatch(Base(a), Base(addr), WordCell(a), WordCell(addr), a % 4);
  }

  lemma LanesMatch(b: nat, c: nat, p: nat, q: nat, lane: nat)
    requires b % 4 == c % 4 == p % 4 == q % 4 == 0 && lane < 4 && (b == c <==> p == q)
    ensures c <= b + lane < c + 4 <==> b == c
    ensures q <= p + lane < q + 4 <==> p == q
  {
  }

  /** A masked write to a word changes the same bytes in both. */
  lemma WriteKeepsHolding(cells: seq<Byte>, f: Flat, addr: nat, data: Word, mask: Strobe)
    requires Holds(cells, f)
    ensures Holds(PutLanes(cells, WordCell(addr), data, mask), PutLanes(f, Base(addr), data, mask))
  {
    var cells2, f2 := PutLanes(cells, WordCell(addr), data, mask), PutLanes(f, Base(addr), data, mask);
    forall a: nat | a < MEMORY ensures cells2[Place(a)] == f2[a] {
      SameLane(a, addr);
    }
  }

  lemma ByteOfWord(addr: nat, k: nat)
    requires k < 4
    ensures Base(Base(addr) + k) == Base(addr) && Place(Base(addr) + k) == WordCell(addr) + k
  {
    var a := Base(addr) + k;
    assert a < MEMORY && a / 4 == Base(addr) / 4 && a % 4 == k;
    WordOfBase(a, addr);
  }

  lemma HeldWord(cells: seq<Byte>, f: Flat, addr: nat)
    requires Holds(cells, f)
    ensures WordAt(cells, WordCell(addr)) == FlatWord(f, addr)
  {
    HeldByte(cells, f, addr, 0);
    HeldByte(cells, f, addr, 1);
    HeldByte(cells, f, addr, 2);
    HeldByte(cells, f, addr, 3);
    SameLanes(cells, WordCell(addr), f, Base(addr));
  }

  lemma SameLanes(s: seq<Byte>, i: nat, u: seq<Byte>, j: nat)
    requires i + 4 <= |s| && j + 4 <= |u|
    requires s[i] == u[j] && s[i + 1] == u[j + 1] && s[i + 2] == u[j + 2] && s[i + 3] == u[j + 3]
    ensures WordAt(s, i) == WordAt(u, j)
  {
  }

  lemma HeldByte(cells: seq<Byte>, f: Flat, addr: nat, k: nat)
    requires Holds(cells, f) && k < 4
    ensures cells[WordCell(addr) + k] == f[Base(addr) + k]
  {
    ByteOfWord(addr, k);
  }

  // ----- Controller and chip -----

  /** The chip sees the command register; its clock runs with the controller's. */
  ghost predicate ChipStepsAt(cs: nat -> Core, chips: nat -> Chip, n: nat) {
    Legal(chips(n), cs(n).command) ==> chips(n + 1) == ChipStep(chips(n), cs(n).command)
  }

  predicate Readable(k: Chip) {
    && |k.cells| == CELLS && k.reading.Reading? && k.reading.bank < BANKS && k.reading.col < COLS
    && k.active[k.reading.bank].Open? && k.active[k.reading.bank].row < ROWS
  }

  /** While the chip delivers a word, the controller samples that word. */
  ghost predicate PinsAt(ins: nat -> Input, chips: nat -> Chip, n: nat) {
    Readable(chips(n)) ==> ins(n).dq == Delivered(chips(n))
  }

  /** A run of controller and chip, wired to each other. */
  ghost predicate AreConnected(t: Timing, cs: nat -> Core, ins: nat -> Input, chips: nat -> Chip) {
    && IsRun(t, cs, ins) && RequestsHeld(cs, ins)
    && (forall n: nat :: Supported(Inverted(ins(n).req.wr)))
    && chips(0).reading == NoRead
    && (forall n: nat :: ChipStepsAt(cs, chips, n))
    && (forall n: nat :: PinsAt(ins, chips, n))
  }

  ghost predicate IsSystem(t: Timing, cs: nat -> Core, ins: nat -> Input, chips: nat -> Chip, f: Flat) {
    AreConnected(t, cs, ins, chips) && Holds(chips(0).cells, f)
  }

  /** The chip after the visible command, against the controller. */
  ghost predicate Agrees(c: Core, k: Chip, f: Flat) {
    && Holds(k.cells, f)
    && (forall b :: 0 <= b < 4 && c.open[b] ==> c.row[b] < ROWS && k.active[b] == Open(c.row[b]))
    && (k.reading.Reading? <==> c.rd0)
  }

  lemma WriteAgrees(t: Timing, c: Core, r: Request, dq: Word, k: Chip, f: Flat)
    requires t.Valid() && Serves(c, r) && Pipelined(c) && Agrees(c, k, f)
    requires c.state == Write0 && Supported(Inverted(r.wr))
    ensures var d := Step(t, c, r, dq); Legal(k, d.command) && Agrees(d, ChipStep(k, d.command), FlatWrite(f, r))
  {
    WriteKeepsHolding(k.cells, f, r.addr, r.data, Inverted(r.wr));
    var d := Step(t, c, r, dq);
    assert d.command == WriteCmd(BankOf(r.addr), ColOf(r.addr), r.data, Inverted(r.wr));
    assert k.active[BankOf(r.addr)] == Open(RowOf(r.addr));
  }

  lemma OtherAgrees(t: Timing, c: Core, r: Request, dq: Word, k: Chip, f: Flat)
    requires t.Valid() && Shape(t, c) && Serves(c, r) && Pipelined(c) && Agrees(c, k, f)
    requires c.state != Write0
    ensures var d := Step(t, c, r, dq); Legal(k, d.command) && Agrees(d, ChipStep(k, d.command), f)
  {
    var d := Step(t, c, r, dq);
    assert !d.command.WriteCmd?;
    assert ChipStep(k, d.command).cells == k.cells;
  }

  /** The next command is legal, and the chip stays in step. */
  lemma AgreementKept(t: Timing, c: Core, r: Request, dq: Word, k: Chip, f: Flat)
    requires t.Valid() && Shape(t, c) && Serves(c, r) && Pipelined(c) && Agrees(c, k, f)
    requires Supported(Inverted(r.wr))
    ensures var d := Step(t, c, r, dq);
            && Legal(k, d.command)
            && Agrees(d, ChipStep(k, d.command), if c.state == Write0 then FlatWrite(f, r) else f)
  {
    if c.state == Write0 { WriteAgrees(t, c, r, dq, k, f); } else { OtherAgrees(t, c, r, dq, k, f); }
  }

  /** In every cycle of every run the command is legal, and the chip after it
      holds every write accepted so far. */
  lemma {:induction false} AgreementHolds(t: Timing, cs: nat -> Core, ins: nat -> Input, chips: nat -> Chip, f: Flat,
                                          n: nat)
    requires IsSystem(t, cs, ins, chips, f)
    ensures Legal(chips(n), cs(n).command) && Agrees(cs(n), chips(n + 1), FlatAt(f, cs, ins, n))
  {
    assert ChipStepsAt(cs, chips, n);
    if n > 0 {
      AgreementHolds(t, cs, ins, chips, f, n - 1);
      ShapeHolds(t, cs, ins, n - 1);
      ServiceHolds(t, cs, ins, n - 1);
      PipelineHolds(t, cs, ins, n - 1);
      assert StepsAt(t, cs, ins, n - 1);
      AgreementKept(t, cs(n - 1), ins(n - 1).req, ins(n - 1).dq, chips(n), FlatAt(f, cs, ins, n - 1));
    }
  }

  /** Every accepted read is acknowledged four cycles later with the word that
      the writes accepted before it left at its address. */
  lemma ReadsReturnMemory(t: Timing, cs: nat -> Core, ins: nat -> Input, chips: nat -> Chip, f: Flat, n: nat)
    requires IsSystem(t, cs, ins, chips, f) && cs(n).state == Read
    ensures cs(n + 4).ack && cs(n + 4).sample == FlatWord(FlatAt(f, cs, ins, n), ins(n).req.addr)
  {
    ReadDelivered(t, cs, ins, chips, f, n);
    assert PinsAt(ins, chips, n + 2);
    assert StepsAt(t, cs, ins, n + 2) && StepsAt(t, cs, ins, n + 3);
    ReadsMoveOn(t, cs, ins, n + 4);
  }

  /** Two cycles after the acceptance the chip delivers the word. */
  lemma ReadDelivered(t: Timing, cs: nat -> Core, ins: nat -> Input, chips: nat -> Chip, f: Flat, n: nat)
    requires IsSystem(t, cs, ins, chips, f) && cs(n).state == Read
    ensures Readable(chips(n + 2)) && Delivered(chips(n + 2)) == FlatWord(FlatAt(f, cs, ins, n), ins(n).req.addr)
  {
    var r := ins(n).req;
    AgreementHolds(t, cs, ins, chips, f, n);
    AgreementHolds(t, cs, ins, chips, f, n + 1);
    ServiceHolds(t, cs, ins, n);
    PipelineHolds(t, cs, ins, n);
    assert StepsAt(t, cs, ins, n) && ChipStepsAt(cs, chips, n + 1);
    assert chips(n + 1).reading == NoRead;
    assert chips(n + 2) == chips(n + 1).(reading := Reading(BankOf(r.addr), ColOf(r.addr)));
    assert chips(n + 2).active[BankOf(r.addr)] == Open(RowOf(r.addr));
    HeldWord(chips(n + 1).cells, FlatAt(f, cs, ins, n), r.addr);
  }

  // ----- What the flat memory holds -----

  /** The write accepted in cycle i changes byte a. */
  predicate Writes(cs: nat -> Core, ins: nat -> Input, i: nat, a: nat) {
    cs(i).state == Write0 && Base(ins(i).req.addr) == Base(a) && ins(i).req.wr[a % 4]
  }

  lemma ByteStep(f: Flat, cs: nat -> Core, ins: nat -> Input, n: nat, a: nat)
    requires a < MEMORY && n > 0
    ensures FlatAt(f, cs, ins, n)[a] ==
      if Writes(cs, ins, n - 1, a) then ins(n - 1).req.data[a % 4] else FlatAt(f, cs, ins, n - 1)[a]
  {
    ByteAfterWrite(FlatAt(f, cs, ins, n - 1), ins(n - 1).req, a);
  }

  ghost predicate Untouched(cs: nat -> Core, ins: nat -> Input, i: nat, n: nat, a: nat) {
    forall j :: i <= j < n ==> !Writes(cs, ins, j, a)
  }

  /** A byte that no write has touched since cycle i is what it was then. */
  lemma {:induction false} UntouchedStays(f: Flat, cs: nat -> Core, ins: nat -> Input, i: nat, n: nat, a: nat)
    requires a < MEMORY && i <= n && Untouched(cs, ins, i, n, a)
    ensures FlatAt(f, cs, ins, n)[a] == FlatAt(f, cs, ins, i)[a]
    decreases n
  {
    if i < n {
      ByteStep(f, cs, ins, n, a);
      UntouchedStays(f, cs, ins, i, n - 1, a);
    }
  }

  /** A byte is the one its latest accepted write put there, or the initial one. */
  lemma LatestWriteWins(f: Flat, cs: nat -> Core, ins: nat -> Input, n: nat, a: nat)
    requires a < MEMORY
    ensures Untouched(cs, ins, 0, n, a) ==> FlatAt(f, cs, ins, n)[a] == f[a]
    ensures forall i :: 0 <= i < n && Writes(cs, ins, i, a) && Untouched(cs, ins, i + 1, n, a) ==>
      FlatAt(f, cs, ins, n)[a] == ins(i).req.data[a % 4]
  {
    if Untouched(cs, ins, 0, n, a) { UntouchedStays(f, cs, ins, 0, n, a); }
    forall i | 0 <= i < n && Writes(cs, ins, i, a) && Untouched(cs, ins, i + 1, n, a)
      ensures FlatAt(f, cs, ins, n)[a] == ins(i).req.data[a % 4]
    {
      UntouchedStays(f, cs, ins, i + 1, n, a);
      ByteStep(f, cs, ins, i + 1, a);
    }
  }

  /** Every lane of an accepted read returns what the latest accepted write put
      into that byte, or its initial content if there was none. */
  lemma ReadReturnsLatestWrite(t: Timing, cs: nat -> Core, ins: nat -> Input, chips: nat -> Chip, f: Flat, n: nat,
                               lane: nat)
    requires IsSystem(t, cs, ins, chips, f) && cs(n).state == Read && lane < 4
    ensures cs(n + 4).ack
    ensures var a := Base(ins(n).req.addr) + lane;
            && (Untouched(cs, ins, 0, n, a) ==> cs(n + 4).sample[lane] == f[a])
            && (forall i :: 0 <= i < n && Writes(cs, ins, i, a) && Untouched(cs, ins, i + 1, n, a) ==>
                  cs(n + 4).sample[lane] == ins(i).req.data[lane])
  {
    var a := Base(ins(n).req.addr) + lane;
    ReadsReturnMemory(t, cs, ins, chips, f, n);
    LatestWriteWins(f, cs, ins, n, a);
    LaneOfWord(FlatAt(f, cs, ins, n), ins(n).req.addr, lane);
  }

  lemma LaneOfWord(f: Flat, addr: nat, lane: nat)
    requires lane < 4
    ensures (Base(addr) + lane) % 4 == lane && FlatWord(f, addr)[lane] == f[Base(addr) + lane]
  {
  }

  lemma ByteAfterWrite(f: Flat, r: Request, a: nat)
    requires a < MEMORY
    ensures FlatWrite(f, r)[a] == if Base(r.addr) == Base(a) && r.wr[a % 4] then r.data[a % 4] else f[a]
  {
    BaseOfByte(a);
    var b := Base(r.addr);
    assert b <= a < b + 4 <==> b == Base(a);
  }

  // ----- Loading an image and reading it back -----

  /** The last byte of an image for the address a. */
  function LastCopy(a: nat, n: nat): (p: nat)
    requires a < n && a < MEMORY
    ensures p < n <= p + MEMORY && p % MEMORY == a
  {
    a + (n - 1 - a) / MEMORY * MEMORY
  }

  /** The flat memory after power-up with an image. */
  function ImageMemory(image: seq<Byte>): Flat {
    seq(MEMORY, a requires 0 <= a < MEMORY => if a < |image| then image[LastCopy(a, |image|)] else 0)
  }

  lemma LaneRepeats(p: nat)
    ensures p % MEMORY % 4 == p % 4
  {
  }

  lemma PlaceRepeats(a: nat, p: nat)
    requires a < MEMORY && p % MEMORY == a
    ensures Place(p) == Place(a)
  {
    LaneRepeats(p);
    assert a % MEMORY == a;
    WordOfBase(p, a);
  }

  /** init_ddr leaves the image where the controller looks for it. */
  lemma ImageIsInPlace(image: seq<Byte>, cells: seq<Byte>)
    requires Loaded(seq(CELLS, i => 0), cells, image, |image|)
    ensures Holds(cells, ImageMemory(image))
  {
    forall a: nat | a < MEMORY ensures cells[Place(a)] == ImageMemory(image)[a] {
      if a < |image| { PlaceRepeats(a, LastCopy(a, |image|)); }
    }
  }

  /** From init_ddr on a zeroed array to the read data: a byte that no accepted
      write has touched is read as the image byte of its address, or 0 behind
      the image. */
  lemma ReadReturnsImage(t: Timing, cs: nat -> Core, ins: nat -> Input, chips: nat -> Chip, image: seq<Byte>, n: nat,
                         lane: nat)
    requires AreConnected(t, cs, ins, chips) && Loaded(seq(CELLS, i => 0), chips(0).cells, image, |image|)
    requires cs(n).state == Read && lane < 4
    requires Untouched(cs, ins, 0, n, Base(ins(n).req.addr) + lane)
    ensures var a := Base(ins(n).req.addr) + lane;
            cs(n + 4).ack && cs(n + 4).sample[lane] == if a < |image| then image[LastCopy(a, |image|)] else 0
  {
    ImageIsInPlace(image, chips(0).cells);
    ReadReturnsLatestWrite(t, cs, ins, chips, ImageMemory(image), n, lane);
  }
}
