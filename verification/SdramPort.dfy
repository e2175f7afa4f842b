// The AXI front end of the SDRAM controller: burst registers, arbitration with
// hold flags, and the request and response queues
// (vsrc/perip/sdram/core_sdram_axi4/sdram_axi_pmem.v).
module SdramPort {
  import opened Division
  import opened SdramCore
  import opened SdramProtocol

  // ----- Queues -----

  const DEPTH := 4

  /** sdram_axi_pmem_fifo2. */
  class Fifo2<T(0)> {
    const ram: array<T>
    var rdPtr: nat
    var wrPtr: nat
    var count: nat

    ghost predicate Valid()
      reads this
    {
      ram.Length == DEPTH && rdPtr < DEPTH && wrPtr < DEPTH && count <= DEPTH && wrPtr == (rdPtr + count) % DEPTH
    }

    /** The queued elements, the oldest first. */
    ghost function Contents(): (s: seq<T>)
      requires Valid()
      reads this, ram
      ensures |s| == count
    {
      Ring(ram[..], rdPtr, count)
    }

    constructor ()
      ensures Valid() && Contents() == [] && fresh(ram)
    {
      ram := new T[DEPTH];
      rdPtr, wrPtr, count := 0, 0, 0;
    }

    predicate AcceptO()
      reads this
    {
      count != DEPTH
    }

    predicate ValidO()
      reads this
    {
      count != 0
    }

    /** The output shows the oldest element. */
    method DataOut() returns (d: T)
      requires Valid() && ValidO()
      ensures d == Contents()[0]
    {
      d := ram[rdPtr];
    }

    /** One clock: a queue that takes at the back and gives at the front. */
    method Clock(data: T, push: bool, pop: bool)
      requires Valid()
      modifies this, ram
      ensures Valid()
      ensures Contents() == Queued(old(Contents()), data, push, pop)
    {
      var pushed, popped := push && count != DEPTH, pop && count != 0;
      ghost var cells := ram[..];
      ghost var q := Queued(Contents(), data, push, pop);
      ghost var next := if pushed then cells[wrPtr := data] else cells;
      ghost var rd := if popped then (rdPtr + 1) % DEPTH else rdPtr;
      ghost var n := (if pushed then count + 1 else count) - (if popped then 1 else 0);
      RingStep(cells, rdPtr, count, data, pushed, popped);
      PointerStep(rdPtr, count, pushed, popped);
      assert Ring(next, rd, n) == q;
      if pushed {
        ram[wrPtr] := data;
        wrPtr := (wrPtr + 1) % DEPTH;
      }
      if popped { rdPtr := (rdPtr + 1) % DEPTH; }
      if pushed && !popped { count := count + 1; } else if !pushed && popped { count := count - 1; }
      assert ram[..] == next && rdPtr == rd && count == n;
    }
  }

  lemma PointerStep(rd: nat, n: nat, push: bool, pop: bool)
    requires rd < DEPTH && (pop ==> n > 0)
    ensures var wr := (rd + n) % DEPTH;
            (if push then (wr + 1) % DEPTH else wr)
            == ((if pop then (rd + 1) % DEPTH else rd) + ((if push then n + 1 else n) - (if pop then 1 else 0))) % DEPTH
  {
  }

  /** n cells of a ring of four, from rd on. */
  function Ring<T>(cells: seq<T>, rd: nat, n: nat): (s: seq<T>)
    requires |cells| == DEPTH
    ensures |s| == n
  {
    seq(n, i requires 0 <= i < n => cells[(rd + i) % DEPTH])
  }

  lemma RingPush<T>(cells: seq<T>, rd: nat, n: nat, data: T)
    requires |cells| == DEPTH && n < DEPTH && rd < DEPTH
    ensures Ring(cells[(rd + n) % DEPTH := data], rd, n + 1) == Ring(cells, rd, n) + [data]
  {
  }

  lemma RingPop<T>(cells: seq<T>, rd: nat, n: nat)
    requires |cells| == DEPTH && 0 < n && rd < DEPTH
    ensures Ring(cells, (rd + 1) % DEPTH, n - 1) == Ring(cells, rd, n)[1..]
  {
  }

  lemma RingStep<T>(cells: seq<T>, rd: nat, n: nat, data: T, push: bool, pop: bool)
    requires |cells| == DEPTH && rd < DEPTH && n <= DEPTH && (push ==> n < DEPTH) && (pop ==> n > 0)
    ensures var next := if push then cells[(rd + n) % DEPTH := data] else cells;
            Ring(next, if pop then (rd + 1) % DEPTH else rd, (if push then n + 1 else n) - (if pop then 1 else 0))
            == (if pop then Ring(cells, rd, n)[1..] else Ring(cells, rd, n)) + (if push then [data] else [])
  {
    if push { RingPush(cells, rd, n, data); }
    if pop { RingPop(if push then cells[(rd + n) % DEPTH := data] else cells, rd, if push then n + 1 else n); }
  }

  function Queued<T>(q: seq<T>, data: T, push: bool, pop: bool): seq<T> {
    (if pop && q != [] then q[1..] else q) + (if push && |q| != DEPTH then [data] else [])
  }

  // ----- Burst addresses -----

  const FIXED := 0
  const WRAP := 2
  const WORDS32 := 0x1_0000_0000

  /** The address window of a wrapping burst. */
  function Window(axlen: nat): (m: nat)
    ensures m > 0 && WORDS32 % m == 0
    ensures axlen == 0 || axlen == 1 || axlen == 3 || axlen == 7 || axlen == 15 ==> m == 4 * (axlen + 1)
  {
    if axlen == 0 then 4 else if axlen == 1 then 8 else if axlen == 3 then 16 else if axlen == 7 then 32 else 64
  }

  /** calculate_addr_next. */
  function NextAddr(addr: nat, burst: nat, axlen: nat): nat {
    if burst == FIXED then addr
    else if burst == WRAP then addr / Window(axlen) * Window(axlen) + (addr + 4) % WORDS32 % Window(axlen)
    else (addr + 4) % WORDS32
  }

  /** The address of beat k of a burst. */
  function BeatAddr(addr: nat, burst: nat, axlen: nat, k: nat): nat
    decreases k
  {
    if k == 0 then addr else BeatAddr(NextAddr(addr, burst, axlen), burst, axlen, k - 1)
  }

  /** One step inside the window. */
  lemma WindowStep(base: nat, x: nat, m: nat)
    requires m > 0 && x < m && WORDS32 % m == 0
    ensures (base * m + x) / m == base
    ensures (base * m + x + 4) % WORDS32 % m == (x + 4) % m
  {
    DivisionUnique(base * m + x, base, x, m);
    var z := base * m + x + 4;
    assert z == base * m + (x + 4);
    MultipleDrops(base, x + 4, m);
    ModuloTwice(z, m, WORDS32);
  }

  lemma {:induction false} PlainAddresses(addr: nat, burst: nat, axlen: nat, k: nat)
    requires addr < WORDS32 && burst != WRAP
    ensures BeatAddr(addr, burst, axlen, k) == if burst == FIXED then addr else (addr + 4 * k) % WORDS32
    decreases k
  {
    if k > 0 {
      PlainAddresses(NextAddr(addr, burst, axlen), burst, axlen, k - 1);
      StepModulo(addr + 4, 4 * (k - 1), WORDS32);
    }
  }

  /** From an address given by its window and the offset in it. */
  lemma {:induction false} WrappedAddresses(base: nat, x: nat, axlen: nat, k: nat)
    requires x < Window(axlen)
    ensures BeatAddr(base * Window(axlen) + x, WRAP, axlen, k) == base * Window(axlen) + (x + 4 * k) % Window(axlen)
    decreases k
  {
    var m := Window(axlen);
    if k > 0 {
      WindowStep(base, x, m);
      var addr := base * m + x;
      assert BeatAddr(addr, WRAP, axlen, k) == BeatAddr(NextAddr(addr, WRAP, axlen), WRAP, axlen, k - 1);
      WrappedAddresses(base, (x + 4) % m, axlen, k - 1);
      StepModulo(x + 4, 4 * (k - 1), m);
    }
  }

  /** The beats of a burst: one address, consecutive words, or consecutive words
      that wrap around inside the window that holds the first. */
  lemma BurstAddresses(addr: nat, burst: nat, axlen: nat, k: nat)
    requires addr < WORDS32
    ensures burst == FIXED ==> BeatAddr(addr, burst, axlen, k) == addr
    ensures burst != FIXED && burst != WRAP ==> BeatAddr(addr, burst, axlen, k) == (addr + 4 * k) % WORDS32
    ensures burst == WRAP ==>
      BeatAddr(addr, burst, axlen, k) ==
          addr / Window(axlen) * Window(axlen) + (addr % Window(axlen) + 4 * k) % Window(axlen)
  {
    if burst == WRAP {
      var m := Window(axlen);
      assert addr == addr / m * m + addr % m;
      WrappedAddresses(addr / m, addr % m, axlen, k);
    } else {
      PlainAddresses(addr, burst, axlen, k);
    }
  }
}
