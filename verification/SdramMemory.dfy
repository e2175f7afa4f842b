// The SDRAM array behind the controller: bank, row and column addressing,
// masked writes, and the loading of an image (csrc/memory/mmio.cpp), with the
// command decoder of the memory model (vsrc/ysyxSoCFull.sv: sdramChisel).
module SdramMemory {
  import opened SdramCore
  import opened SdramProtocol

  // ----- Cells -----

  const COLS := 512
  const CELLS := BANKS * ROWS * COLS * 4

  /** 32 MB: 25 address bits. */
  const MEMORY := 0x200_0000

  /** The byte of sdram[bank][row][col] that holds lane 0. */
  function CellOf(bank: nat, row: nat, col: nat): nat { ((bank * ROWS + row) * COLS + col) * 4 }

  lemma CellInRange(bank: nat, row: nat, col: nat)
    requires bank < BANKS && row < ROWS && col < COLS
    ensures CellOf(bank, row, col) + 4 <= CELLS
  {
  }

  /** Where the controller looks for the word of an address. */
  function WordCell(addr: nat): (i: nat)
    ensures i + 4 <= CELLS
  {
    CellInRange(BankOf(addr), RowOf(addr), ColOf(addr));
    CellOf(BankOf(addr), RowOf(addr), ColOf(addr))
  }

  /** The cell of every byte of the flat memory. */
  function Place(a: nat): (i: nat)
    ensures i < CELLS
  {
    WordCell(a) + a % 4
  }

  /** The word of an address in the flat memory. */
  function Base(addr: nat): (i: nat)
    ensures i % 4 == 0 && i + 4 <= MEMORY
  {
    addr % MEMORY / 4 * 4
  }

  lemma QuotientSteps(a: nat)
    ensures a / 1024 == a / 4 / 256 && a / 4096 == a / 4 / 1024 && a / 4 / 1024 == a / 4 / 256 / 4
    ensures a % MEMORY / 4 == a / 4 % 0x80_0000
  {
  }

  lemma RemainderOf(q: nat, k: nat, r: nat)
    requires q == k * 0x80_0000 + r && r < 0x80_0000
    ensures q % 0x80_0000 == r
  {
  }

  lemma QuotientParts(q: nat)
    ensures q % 0x80_0000 == q / 256 / 4 % 8192 * 1024 + q / 256 % 4 * 256 + q % 256
  {
    var u := q / 256;
    var v := u / 4;
    assert q == u * 256 + q % 256;
    assert u == v * 4 + u % 4;
    assert v == v / 8192 * 8192 + v % 8192;
    RemainderOf(q, v / 8192, v % 8192 * 1024 + u % 4 * 256 + q % 256);
  }

  /** The address slices lose nothing within 32 MB. */
  lemma SlicesRecompose(addr: nat)
    ensures Base(addr) == RowOf(addr) * 4096 + BankOf(addr) * 1024 + ColOf(addr) * 4
  {
    QuotientSteps(addr);
    QuotientParts(addr / 4);
  }

  lemma CellsDiffer(b1: nat, r1: nat, c1: nat, b2: nat, r2: nat, c2: nat)
    requires r1 < ROWS && r2 < ROWS && c1 < COLS && c2 < COLS
    requires CellOf(b1, r1, c1) == CellOf(b2, r2, c2)
    ensures b1 == b2 && r1 == r2 && c1 == c2
  {
  }

  /** Different words of the flat memory lie in different cells. */
  lemma WordsDiffer(a: nat, b: nat)
    requires Base(a) != Base(b)
    ensures WordCell(a) != WordCell(b)
  {
    SlicesRecompose(a);
    SlicesRecompose(b);
    if WordCell(a) == WordCell(b) {
      CellsDiffer(BankOf(a), RowOf(a), ColOf(a), BankOf(b), RowOf(b), ColOf(b));
    }
  }

  lemma WordOfBase(a: nat, b: nat)
    requires Base(a) == Base(b)
    ensures WordCell(a) == WordCell(b)
  {
    SlicesRecompose(a);
    SlicesRecompose(b);
    DigitsAgree(RowOf(a), BankOf(a), ColOf(a), RowOf(b), BankOf(b), ColOf(b));
  }

  lemma DigitsAgree(r1: nat, b1: nat, c1: nat, r2: nat, b2: nat, c2: nat)
    requires b1 < 4 && b2 < 4 && c1 < 256 && c2 < 256
    requires r1 * 4096 + b1 * 1024 + c1 * 4 == r2 * 4096 + b2 * 1024 + c2 * 4
    ensures r1 == r2 && b1 == b2 && c1 == c2
  {
  }

  // ----- Masked writes -----

  /** The lanes whose mask bit is clear are replaced. */
  function PutLanes(s: seq<Byte>, i: nat, data: Word, mask: Strobe): (r: seq<Byte>)
    requires i + 4 <= |s|
    ensures |r| == |s|
    ensures forall k :: 0 <= k < |s| ==> r[k] == if i <= k < i + 4 && !mask[k - i] then data[k - i] else s[k]
  {
    s[..i] + [if mask[0] then s[i] else data[0], if mask[1] then s[i + 1] else data[1],
              if mask[2] then s[i + 2] else data[2], if mask[3] then s[i + 3] else data[3]] + s[i + 4..]
  }

  function WordAt(s: seq<Byte>, i: nat): Word
    requires i + 4 <= |s|
  {
    s[i..i + 4]
  }

  /** The masks sdram_write knows: none, one byte, an aligned half, the word. */
  predicate Supported(mask: Strobe) {
    || mask == [true, true, true, true]
    || mask == [false, true, true, true] || mask == [true, false, true, true]
    || mask == [true, true, false, true] || mask == [true, true, true, false]
    || mask == [false, false, true, true] || mask == [true, true, false, false]
    || mask == [false, false, false, false]
  }

  // ----- The memory chip -----

  datatype Selected = NoRead | Reading(bank: nat, col: nat)

  datatype Chip = Chip(active: Table, reading: Selected, cells: seq<Byte>)

  /** Nothing the C functions would reject: a row has been selected in the bank,
      the column lies in it, and the mask is known. */
  predicate Legal(k: Chip, cmd: Command) {
    |k.cells| == CELLS &&
    match cmd
    case ActiveCmd(b, row) => b < BANKS && row < ROWS
    case ReadCmd(b, col) => b < BANKS && col < COLS && k.active[b].Open? && k.active[b].row < ROWS
    case WriteCmd(b, col, data, mask) =>
      b < BANKS && col < COLS && k.active[b].Open? && k.active[b].row < ROWS && Supported(mask)
    case _ => true
  }

  /** One clock of the chip. While it delivers the data of a read it takes no command. */
  function ChipStep(k: Chip, cmd: Command): Chip
    requires Legal(k, cmd)
  {
    if k.reading.Reading? then k.(reading := NoRead)
    else
      match cmd
      case ActiveCmd(b, row) => k.(active := k.active[b := Open(row)])
      case ReadCmd(b, col) => k.(reading := Reading(b, col))
      case WriteCmd(b, col, data, mask) =>
        CellInRange(b, k.active[b].row, col);
        k.(cells := PutLanes(k.cells, CellOf(b, k.active[b].row, col), data, mask))
      case _ => k
  }

  /** The word on the data pins while a read is delivered. */
  function Delivered(k: Chip): Word
    requires |k.cells| == CELLS && k.reading.Reading? && k.reading.bank < BANKS && k.reading.col < COLS
    requires k.active[k.reading.bank].Open? && k.active[k.reading.bank].row < ROWS
  {
    CellInRange(k.reading.bank, k.active[k.reading.bank].row, k.reading.col);
    WordAt(k.cells, CellOf(k.reading.bank, k.active[k.reading.bank].row, k.reading.col))
  }

  class SdramArray {
    /** The bytes of sdram[bank][row][col][2], two bytes for every element. */
    const sdram: array<Byte>
    var activedRows: Table
    var reading: Selected

    ghost predicate Valid()
      reads this
    {
      sdram.Length == CELLS
    }

    ghost function State(): Chip
      reads this, sdram
    {
      Chip(activedRows, reading, sdram[..])
    }

    constructor ()
      ensures Valid() && fresh(sdram)
      ensures State() == Chip([Closed, Closed, Closed, Closed], NoRead, seq(CELLS, i => 0))
    {
      sdram := new Byte[CELLS](i => 0);
      activedRows := [Closed, Closed, Closed, Closed];
      reading := NoRead;
      new;
      assert sdram[..] == seq(CELLS, i => 0);
    }

    /** sdram_active. */
    method SdramActive(ba: nat, a: nat)
      requires Valid() && ba < BANKS && a < ROWS
      modifies `activedRows
      ensures activedRows == old(activedRows)[ba := Open(a)]
    {
      activedRows := activedRows[ba := Open(a)];
    }

    /** sdram_read. */
    method SdramRead(ba: nat, a: nat) returns (data: Word)
      requires Valid() && ba < BANKS && a < COLS && activedRows[ba].Open? && activedRows[ba].row < ROWS
      ensures CellOf(ba, activedRows[ba].row, a) + 4 <= CELLS
      ensures data == WordAt(sdram[..], CellOf(ba, activedRows[ba].row, a))
    {
      CellInRange(ba, activedRows[ba].row, a);
      var i := CellOf(ba, activedRows[ba].row, a);
      data := [sdram[i], sdram[i + 1], sdram[i + 2], sdram[i + 3]];
      assert sdram[..][i..i + 4] == data;
    }

    /** sdram_write: the stores of each mask, little-endian. */
    method SdramWrite(ba: nat, a: nat, wdata: Word, dqm: Strobe)
      requires Valid() && ba < BANKS && a < COLS && activedRows[ba].Open? && activedRows[ba].row < ROWS
      requires Supported(dqm)
      modifies sdram
      ensures CellOf(ba, activedRows[ba].row, a) + 4 <= CELLS
      ensures sdram[..] == PutLanes(old(sdram[..]), CellOf(ba, activedRows[ba].row, a), wdata, dqm)
    {
      CellInRange(ba, activedRows[ba].row, a);
      var i := CellOf(ba, activedRows[ba].row, a);
      if dqm == [true, true, true, true] {
      } else if dqm == [false, true, true, true] {
        sdram[i] := wdata[0];
      } else if dqm == [true, false, true, true] {
        sdram[i + 1] := wdata[1];
      } else if dqm == [true, true, false, true] {
        sdram[i + 2] := wdata[2];
      } else if dqm == [true, true, true, false] {
        sdram[i + 3] := wdata[3];
      } else if dqm == [false, false, true, true] {
        sdram[i], sdram[i + 1] := wdata[0], wdata[1];
      } else if dqm == [true, true, false, false] {
        sdram[i + 2], sdram[i + 3] := wdata[2], wdata[3];
      } else {
        sdram[i], sdram[i + 1], sdram[i + 2], sdram[i + 3] := wdata[0], wdata[1], wdata[2], wdata[3];
      }
    }

    /** One clock of the command decoder. */
    method Clock(cmd: Command)
      requires Valid() && Legal(State(), cmd)
      modifies this, sdram
      ensures State() == ChipStep(old(State()), cmd)
    {
      if reading.Reading? {
        reading := NoRead;
        return;
      }
      match cmd {
        case ActiveCmd(b, row) => SdramActive(b, row);
        case ReadCmd(b, col) => reading := Reading(b, col);
        case WriteCmd(b, col, data, mask) => SdramWrite(b, col, data, mask);
        case _ =>
      }
    }

    /** init_ddr: rows of 1024 image bytes go to the banks in turn, and every
        fourth time to the next row, after the last row to the first one again. */
    method InitDdr(image: seq<Byte>)
      requires Valid()
      modifies sdram
      ensures Loaded(old(sdram[..]), sdram[..], image, |image|)
    {
      var bank, row, pos := 0, 0, 0;
      ghost var chunk := 0;
      ghost var before := sdram[..];
      while |image| - pos > 1024
        invariant pos == chunk * 1024 <= |image| && bank == chunk % BANKS && row == chunk / BANKS % ROWS
        invariant Loaded(before, sdram[..], image, pos)
      {
        LoadChunk(before, bank, row, chunk, image, pos, 1024);
        pos := pos + 1024;
        NextChunk(chunk);
        if bank == BANKS - 1 { row := (row + 1) % ROWS; }
        bank := (bank + 1) % BANKS;
        chunk := chunk + 1;
      }
      LoadChunk(before, bank, row, chunk, image, pos, |image| - pos);
    }

    /** fread of one piece of the image into a row. */
    method LoadChunk(ghost before: seq<Byte>, bank: nat, row: nat, ghost chunk: nat, image: seq<Byte>, pos: nat,
                     len: nat)
      requires Valid() && bank < BANKS && row < ROWS && len <= 1024 && pos + len <= |image|
      requires pos == chunk * 1024 && bank == chunk % BANKS && row == chunk / BANKS % ROWS
      requires Loaded(before, sdram[..], image, pos)
      modifies sdram
      ensures Loaded(before, sdram[..], image, pos + len)
    {
      var base := CellOf(bank, row, 0);
      CellInRange(bank, row, COLS - 1);
      ghost var middle := sdram[..];
      var i := 0;
      while i < len
        invariant i <= len && |sdram[..]| == CELLS
        invariant forall k :: 0 <= k < CELLS ==>
          sdram[k] == if base <= k < base + i then image[pos + (k - base)] else middle[k]
      {
        sdram[base + i] := image[pos + i];
        i := i + 1;
      }
      ChunkIsLoaded(before, middle, sdram[..], image, chunk, base, len);
    }
  }

  /** After n bytes of the image, each address holds the last byte read for it:
      the image starts over in its first cell every 32 MB. The rest is as before. */
  ghost predicate Loaded(before: seq<Byte>, now: seq<Byte>, image: seq<Byte>, n: nat) {
    && |before| == CELLS && |now| == CELLS && n <= |image|
    && (forall p: nat {:trigger Place(p)} :: p < n <= p + MEMORY ==> now[Place(p)] == image[p])
    && (forall a: nat {:trigger Place(a)} :: n <= a < MEMORY ==> now[Place(a)] == before[Place(a)])
    && (forall k :: 0 <= k < CELLS && k % 2048 >= 1024 ==> now[k] == before[k])
  }

  /** The cells from base on hold the piece of the image from n on. */
  ghost predicate PieceWritten(middle: seq<Byte>, now: seq<Byte>, image: seq<Byte>, n: nat, base: nat, len: nat) {
    && |middle| == CELLS && |now| == CELLS && n + len <= |image|
    && forall k :: 0 <= k < CELLS ==> now[k] == if base <= k < base + len then image[n + (k - base)] else middle[k]
  }

  lemma ChunkIsLoaded(before: seq<Byte>, middle: seq<Byte>, now: seq<Byte>, image: seq<Byte>, chunk: nat, base: nat,
                      len: nat)
    requires len <= 1024 && base == CellOf(chunk % BANKS, chunk / BANKS % ROWS, 0)
    requires Loaded(before, middle, image, chunk * 1024) && PieceWritten(middle, now, image, chunk * 1024, base, len)
    ensures Loaded(before, now, image, chunk * 1024 + len)
  {
    var n := chunk * 1024;
    RowStart(chunk % BANKS, chunk / BANKS % ROWS);
    forall p: nat | p < n + len <= p + MEMORY ensures now[Place(p)] == image[p] {
      PlaceUpToPiece(p, chunk, len, base);
      ByteIsLoaded(middle, now, image, n, base, len, Place(p), p);
    }
    forall a: nat | n + len <= a < MEMORY ensures now[Place(a)] == before[Place(a)] {
      PlaceBehindPiece(a, chunk, len, base);
      assert n <= a && middle[Place(a)] == before[Place(a)];
    }
    forall k | 0 <= k < CELLS && k % 2048 >= 1024 ensures now[k] == before[k] {
      OuterCellStays(before, middle, now, image, n, base, len, k);
    }
  }

  lemma OuterCellStays(before: seq<Byte>, middle: seq<Byte>, now: seq<Byte>, image: seq<Byte>, n: nat, base: nat,
                       len: nat, k: nat)
    requires PieceWritten(middle, now, image, n, base, len) && base % 2048 == 0 && len <= 1024 && |before| == CELLS
    requires k < CELLS && k % 2048 >= 1024 && middle[k] == before[k]
    ensures now[k] == before[k]
  {
    if base <= k < base + len { FirstHalf(base, k - base); }
  }

  lemma ByteIsLoaded(middle: seq<Byte>, now: seq<Byte>, image: seq<Byte>, n: nat, base: nat, len: nat, i: nat, p: nat)
    requires PieceWritten(middle, now, image, n, base, len) && i < CELLS && p < n + len
    requires p >= n ==> i == base + (p - n)
    requires p < n ==> !(base <= i < base + len) && middle[i] == image[p]
    ensures now[i] == image[p]
  {
  }

  lemma FirstHalf(base: nat, i: nat)
    requires base % 2048 == 0 && i < 1024
    ensures (base + i) % 2048 < 1024
  {
  }

  /** The latest bytes up to the end of a piece: those of the piece are in its
      cells, the earlier ones are not. */
  lemma PlaceUpToPiece(p: nat, chunk: nat, len: nat, base: nat)
    requires len <= 1024 && p < chunk * 1024 + len <= p + MEMORY
    requires base == CellOf(chunk % BANKS, chunk / BANKS % ROWS, 0)
    ensures p >= chunk * 1024 ==> Place(p) == base + (p - chunk * 1024)
    ensures p < chunk * 1024 ==> !(base <= Place(p) < base + len)
  {
    PlaceInChunk(p, chunk);
    if p / 1024 % 0x8000 == chunk % 0x8000 && p % 1024 < len { SameChunk(p / 1024, chunk); }
  }

  lemma PlaceBehindPiece(a: nat, chunk: nat, len: nat, base: nat)
    requires len <= 1024 && chunk * 1024 + len <= a < MEMORY
    requires base == CellOf(chunk % BANKS, chunk / BANKS % ROWS, 0)
    ensures !(base <= Place(a) < base + len)
  {
    PlaceInChunk(a, chunk);
    if a / 1024 % 0x8000 == chunk % 0x8000 { SameChunk(chunk, a / 1024); }
  }

  lemma SameChunk(x: nat, y: nat)
    requires x <= y < x + 0x8000 && x % 0x8000 == y % 0x8000
    ensures x == y
  {
  }

  lemma RowStart(bank: nat, row: nat)
    ensures CellOf(bank, row, 0) % 2048 == 0
  {
  }

  lemma NextChunk(chunk: nat)
    ensures (chunk + 1) % BANKS == (chunk % BANKS + 1) % BANKS
    ensures (chunk + 1) / BANKS % ROWS ==
      if chunk % BANKS == BANKS - 1 then (chunk / BANKS % ROWS + 1) % ROWS else chunk / BANKS % ROWS
  {
    if chunk % BANKS == BANKS - 1 {
      NextRemainder(chunk / BANKS);
      assert (chunk + 1) / BANKS == chunk / BANKS + 1;
    } else {
      assert (chunk + 1) / BANKS == chunk / BANKS;
    }
  }

  lemma NextRemainder(row: nat)
    ensures (row + 1) % ROWS == (row % ROWS + 1) % ROWS
  {
  }

  lemma QuotientOfChunk(a: nat)
    ensures a / 4096 == a / 1024 / 4 && a % 1024 == a / 4 % 256 * 4 + a % 4
  {
    var q := a / 4;
    assert a == q * 4 + a % 4 && a / 1024 == q / 256;
    assert q == q / 256 * 256 + q % 256;
  }

  lemma RowsDiffer(b1: nat, r1: nat, b2: nat, r2: nat, offset: nat)
    requires r1 < ROWS && r2 < ROWS && offset < 1024
    requires CellOf(b2, r2, 0) <= CellOf(b1, r1, 0) + offset < CellOf(b2, r2, 0) + 1024
    ensures b1 == b2 && r1 == r2
  {
  }

  /** A row of the image lands in the cells where the controller looks for it,
      and in no others. */
  lemma PlaceInChunk(a: nat, chunk: nat)
    ensures var base := CellOf(chunk % BANKS, chunk / BANKS % ROWS, 0);
            && (a / 1024 % 0x8000 == chunk % 0x8000 <==> base <= Place(a) < base + 1024)
            && (a / 1024 % 0x8000 == chunk % 0x8000 ==> Place(a) == base + a % 1024)
  {
    QuotientOfChunk(a);
    ChunkOf(a / 1024, chunk);
    var base := CellOf(chunk % BANKS, chunk / BANKS % ROWS, 0);
    var offset := ColOf(a) * 4 + a % 4;
    assert Place(a) == CellOf(BankOf(a), RowOf(a), 0) + offset;
    if base <= Place(a) < base + 1024 {
      RowsDiffer(BankOf(a), RowOf(a), chunk % BANKS, chunk / BANKS % ROWS, offset);
    }
  }

  lemma ChunkDigits(x: nat)
    ensures x % 0x8000 == x / 4 % 8192 * 4 + x % 4
  {
    assert x == x / 4 * 4 + x % 4;
  }

  lemma ChunkOf(x: nat, y: nat)
    ensures x % 4 == y % 4 && x / 4 % 8192 == y / 4 % 8192 <==> x % 0x8000 == y % 0x8000
  {
    ChunkDigits(x);
    ChunkDigits(y);
    SameDigits(x / 4 % 8192, x % 4, y / 4 % 8192, y % 4);
  }

  lemma SameDigits(a: nat, b: nat, c: nat, d: nat)
    requires b < 4 && d < 4
    ensures a * 4 + b == c * 4 + d <==> a == c && b == d
  {
  }
}
