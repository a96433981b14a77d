/** The host's erase and program loops, driving the chip through the controller. */
module FlashProgrammer {
  import opened Bits
  import opened Bytes
  import opened Nor
  import opened Spinor
  import opened Words

  // ---- What the loops do to the flash ----

  datatype EraseOp = EraseOp(addr: nat, size: nat)

  /** Erases still to be issued: 64 KiB blocks while they fit and the start is aligned, then sectors. */
  function Erases(addr: nat, len: nat, erased: nat): seq<EraseOp>
    decreases if erased < len then len - erased else 0
  {
    if erased >= len then [] else
    var size := EraseSize(addr, len - erased);
    [EraseOp(addr + erased, size)] + Erases(addr, len, erased + size)
  }

  function EraseAll(mem: seq<byte>, ops: seq<EraseOp>): (m: seq<byte>)
    requires forall op :: op in ops ==> op.size > 0
    ensures |m| == |mem|
    decreases |ops|
  {
    if ops == [] then mem else EraseAll(Erase(mem, ops[0].addr, ops[0].size), ops[1..])
  }

  lemma {:induction false} SizesPositive(addr: nat, len: nat, erased: nat)
    ensures forall op :: op in Erases(addr, len, erased) ==> op.size > 0
    decreases if erased < len then len - erased else 0
  {
    if erased < len {
      var size := EraseSize(addr, len - erased);
      SizesPositive(addr, len, erased + size);
    }
  }

  function Padded(data: seq<byte>): (p: seq<byte>)
    ensures |p| % 4 == 0 && |data| <= |p| < |data| + 4 && p[..|data|] == data
    ensures forall i :: |data| <= i < |p| ==> p[i] == 0xFF
  {
    data + seq((4 - |data| % 4) % 4, _ => 0xFF)
  }

  function ChunkLength(left: nat): nat {
    if left > PAGE then PAGE else left
  }

  /** Chunks of up to 256 bytes, from `written` on. */
  function ProgramAll(mem: seq<byte>, addr: nat, data: seq<byte>, written: nat): (m: seq<byte>)
    requires written <= |data|
    ensures |m| == |mem|
    decreases |data| - written
  {
    if written == |data| then mem else
    var n := ChunkLength(|data| - written);
    ProgramAll(Program(mem, addr + written, data[written..written + n]), addr, data, written + n)
  }

  function Outcome(mem: seq<byte>, addr: nat, data: seq<byte>): (m: seq<byte>)
    ensures |m| == |mem|
  {
    SizesPositive(addr, |data|, 0);
    ProgramAll(EraseAll(mem, Erases(addr, |data|, 0)), addr, Padded(data), 0)
  }

  // ---- What they should do ----

  function RoundUp(n: nat): (r: nat)
    ensures r % SECTOR == 0 && n <= r < n + SECTOR
  {
    (n + SECTOR - 1) / SECTOR * SECTOR
  }

  function IdealByte(m: byte, addr: nat, data: seq<byte>, i: nat): byte {
    if addr <= i < addr + |data| then data[i - addr]
    else if addr <= i < addr + RoundUp(|data|) then 0xFF
    else m
  }

  /** data at addr, the rest of the sectors it touches blank, everything else as it was. */
  ghost predicate Ideal(mem: seq<byte>, addr: nat, data: seq<byte>, m: seq<byte>) {
    |m| == |mem| && forall i :: 0 <= i < |mem| ==> m[i] == IdealByte(mem[i], addr, data, i)
  }

  // ---- Erasing ----

  /** Start of the sector of addr. */
  function Base(addr: nat): (b: nat)
    ensures b % SECTOR == 0 && b <= addr < b + SECTOR
    ensures addr % SECTOR == 0 ==> b == addr
  {
    addr / SECTOR * SECTOR
  }

  ghost predicate OnTrack(addr: nat, len: nat, erased: nat) {
    && erased % SECTOR == 0
    && (addr % BLOCK == 0 && erased + BLOCK <= len ==> erased % BLOCK == 0)
  }

  function EraseSize(addr: nat, left: nat): nat {
    if left >= BLOCK && addr % BLOCK == 0 then BLOCK else SECTOR
  }

  lemma StaysOnTrack(addr: nat, len: nat, erased: nat)
    requires OnTrack(addr, len, erased) && erased < len
    ensures var size := EraseSize(addr, len - erased);
            && OnTrack(addr, len, erased + size) && erased + size <= RoundUp(len)
            && (Base(addr) + erased) % size == 0 && addr + erased < Base(addr) + erased + size
  {
    MultipleSum(Base(addr), erased, SECTOR);
    MultipleSum(erased, SECTOR, SECTOR);
    MultipleSum(erased, BLOCK, SECTOR);
    if len - erased >= BLOCK && addr % BLOCK == 0 {
      MultipleSum(Base(addr), erased, BLOCK);
      MultipleSum(erased, BLOCK, BLOCK);
    } else {
      NextSector(len, erased);
    }
  }

  lemma NextSector(len: nat, erased: nat)
    requires erased % SECTOR == 0 && erased < len
    ensures erased + SECTOR <= RoundUp(len)
  {
    hide RoundUp;
    var j, k := erased / SECTOR, RoundUp(len) / SECTOR;
    assert erased == SECTOR * j && RoundUp(len) == SECTOR * k;
  }

  /** The erase is one the chip knows, aligned to its size, and within the region. */
  ghost predicate Sound(op: EraseOp, addr: nat, len: nat) {
    op.size in {SECTOR, BLOCK} && op.addr % op.size == 0 && addr <= op.addr && op.addr + op.size <= addr + RoundUp(len)
  }

  /** From a sector-aligned start every erase is aligned to its own size. */
  lemma {:induction false} ErasesAligned(addr: nat, len: nat, erased: nat)
    requires addr % SECTOR == 0 && OnTrack(addr, len, erased)
    ensures forall op :: op in Erases(addr, len, erased) ==> Sound(op, addr, len)
    decreases if erased < len then len - erased else 0
  {
    hide OnTrack, RoundUp;
    if erased < len {
      var size := EraseSize(addr, len - erased);
      StaysOnTrack(addr, len, erased);
      ErasesAligned(addr, len, erased + size);
    }
  }

  lemma EraseAround(mem: seq<byte>, base: nat, addr: nat, size: nat, i: nat)
    requires size in {SECTOR, BLOCK} && base % size == 0 && base <= addr < base + size && i < |mem|
    ensures Erase(mem, addr, size)[i] == if base <= i < base + size then 0xFF else mem[i]
  {
    if size == SECTOR {
      assert i / SECTOR == addr / SECTOR <==> base <= i < base + SECTOR;
    } else {
      assert i / BLOCK == addr / BLOCK <==> base <= i < base + BLOCK;
    }
  }

  lemma RoundUpLeast(addr: nat, len: nat, erased: nat)
    requires OnTrack(addr, len, erased) && erased >= len
    ensures erased >= RoundUp(len)
  {
    hide RoundUp;
    var j, k := erased / SECTOR, RoundUp(len) / SECTOR;
    assert erased == SECTOR * j && RoundUp(len) == SECTOR * k;
  }

  /** As many sectors as the length takes are erased, from the one the start lies in. */
  lemma {:induction false} EraseRegion(mem: seq<byte>, addr: nat, len: nat, erased: nat, i: nat)
    requires OnTrack(addr, len, erased) && i < |mem| && forall op :: op in Erases(addr, len, erased) ==> op.size > 0
    ensures EraseAll(mem, Erases(addr, len, erased))[i] ==
            if Base(addr) + erased <= i < Base(addr) + RoundUp(len) then 0xFF else mem[i]
    decreases if erased < len then len - erased else 0
  {
    hide Erase, OnTrack, RoundUp, Base, Erases, EraseAll;
    EraseFirst(mem, addr, len, erased);
    if erased >= len {
      RoundUpLeast(addr, len, erased);
    } else {
      var size := EraseSize(addr, len - erased);
      SizesPositive(addr, len, erased + size);
      StaysOnTrack(addr, len, erased);
      EraseAround(mem, Base(addr) + erased, addr + erased, size, i);
      EraseRegion(Erase(mem, addr + erased, size), addr, len, erased + size, i);
    }
  }

  lemma EraseFirst(mem: seq<byte>, addr: nat, len: nat, erased: nat)
    ensures forall op :: op in Erases(addr, len, erased) ==> op.size > 0
    ensures var size := EraseSize(addr, if erased < len then len - erased else 0);
            && (forall op :: op in Erases(addr, len, erased + size) ==> op.size > 0)
            && EraseAll(mem, Erases(addr, len, erased)) ==
               if erased >= len then mem
               else EraseAll(Erase(mem, addr + erased, size), Erases(addr, len, erased + size))
  {
    hide Erase;
    var size := EraseSize(addr, if erased < len then len - erased else 0);
    SizesPositive(addr, len, erased);
    SizesPositive(addr, len, erased + size);
    if erased < len { assert Erases(addr, len, erased)[1..] == Erases(addr, len, erased + size); }
  }

  // ---- Programming ----

  /** Within one page nothing wraps. */
  lemma ProgramChunk(mem: seq<byte>, at: nat, chunk: seq<byte>, i: nat)
    requires at % PAGE == 0 && |chunk| <= PAGE && i < |mem|
    ensures Program(mem, at, chunk)[i] ==
            if at <= i < at + |chunk| then ByteAnd(chunk[i - at], mem[i]) else mem[i]
  {
    hide ByteAnd;
    if at <= i < at + PAGE {
      assert i / PAGE == at / PAGE && (i - at) % PAGE == i - at;
    } else {
      assert i / PAGE != at / PAGE;
    }
  }

  lemma {:induction false} ProgramRegion(mem: seq<byte>, addr: nat, data: seq<byte>, written: nat, i: nat)
    requires addr % PAGE == 0 && written <= |data| && (written % PAGE == 0 || written == |data|) && i < |mem|
    ensures ProgramAll(mem, addr, data, written)[i] ==
            if addr + written <= i < addr + |data| then ByteAnd(data[i - addr], mem[i]) else mem[i]
    decreases |data| - written
  {
    hide ByteAnd, Program;
    if written < |data| {
      var n := ChunkLength(|data| - written);
      var chunk := data[written..written + n];
      ProgramChunk(mem, addr + written, chunk, i);
      ProgramRegion(Program(mem, addr + written, chunk), addr, data, written + n, i);
    }
  }

  /** Starting on a sector, the loops do what they should. */
  lemma AlignedIsIdeal(mem: seq<byte>, addr: nat, data: seq<byte>)
    requires addr % SECTOR == 0
    ensures Ideal(mem, addr, data, Outcome(mem, addr, data))
  {
    hide Outcome, IdealByte;
    forall i | 0 <= i < |mem|
      ensures Outcome(mem, addr, data)[i] == IdealByte(mem[i], addr, data, i)
    {
      AlignedByte(mem, addr, data, i);
    }
  }

  lemma AlignedByte(mem: seq<byte>, addr: nat, data: seq<byte>, i: nat)
    requires addr % SECTOR == 0 && i < |mem|
    ensures Outcome(mem, addr, data)[i] == IdealByte(mem[i], addr, data, i)
  {
    hide EraseAll, ProgramAll, Erases, ByteAnd, RoundUp, Padded, Base;
    SizesPositive(addr, |data|, 0);
    var erased, p := EraseAll(mem, Erases(addr, |data|, 0)), Padded(data);
    SectorStart(addr, |data|);
    hide OnTrack;
    EraseRegion(mem, addr, |data|, 0, i);
    ProgramRegion(erased, addr, p, 0, i);
    PaddingFits(|data|, |p|);
    if addr <= i < addr + |p| {
      ProgramErased(p[i - addr]);
      if i < addr + |data| { assert p[..|data|][i - addr] == data[i - addr]; }
    }
  }

  lemma SectorStart(addr: nat, len: nat)
    requires addr % SECTOR == 0
    ensures Base(addr) == addr && addr % PAGE == 0 && OnTrack(addr, len, 0)
  {
  }

  lemma PaddingFits(n: nat, padded: nat)
    requires padded % 4 == 0 && n <= padded < n + 4
    ensures padded <= RoundUp(n)
  {
    hide RoundUp;
    MultipleOf4(padded, RoundUp(n), padded / 4, RoundUp(n) / SECTOR);
  }

  lemma MultipleOf4(p: nat, r: nat, j: nat, k: nat)
    requires p == 4 * j && r == SECTOR * k && p < r + 4
    ensures p <= r
  {
  }

  /** The first erase wipes out any difference below an unaligned start. */
  lemma UnalignedForgets(mem: seq<byte>, mem': seq<byte>, addr: nat, data: seq<byte>)
    requires addr % SECTOR != 0 && data != [] && |mem| == |mem'| && addr <= |mem|
    requires forall i :: 0 <= i < |mem| && i != addr - 1 ==> mem[i] == mem'[i]
    ensures Outcome(mem, addr, data) == Outcome(mem', addr, data)
  {
    hide ProgramAll;
    SizesPositive(addr, |data|, 0);
    var ops := Erases(addr, |data|, 0);
    assert ops[0] == EraseOp(addr, SECTOR);
    assert (addr - 1) / SECTOR == addr / SECTOR;
    assert Erase(mem, addr, SECTOR) == Erase(mem', addr, SECTOR);
  }

  /** The loops do what they should with every flash if and only if they start on a sector (or have nothing to do). */
  lemma IdealIffAligned(size: nat, addr: nat, data: seq<byte>)
    requires addr + |data| <= size
    ensures (forall mem: seq<byte> :: |mem| == size ==> Ideal(mem, addr, data, Outcome(mem, addr, data))) <==>
            data == [] || addr % SECTOR == 0
  {
    hide Outcome;
    if addr % SECTOR == 0 {
      forall mem: seq<byte> | |mem| == size
        ensures Ideal(mem, addr, data, Outcome(mem, addr, data))
      {
        AlignedIsIdeal(mem, addr, data);
      }
    } else if data == [] {
      forall mem: seq<byte> | |mem| == size
        ensures Ideal(mem, addr, data, Outcome(mem, addr, data))
      {
        NothingToDo(mem, addr);
      }
    } else {
      var mem: seq<byte> := seq(size, _ => 0);
      var mem' := mem[addr - 1 := 1];
      UnalignedForgets(mem, mem', addr, data);
      assert IdealByte(mem[addr - 1], addr, data, addr - 1) == 0;
      assert IdealByte(mem'[addr - 1], addr, data, addr - 1) == 1;
      assert !Ideal(mem, addr, data, Outcome(mem, addr, data)) || !Ideal(mem', addr, data, Outcome(mem', addr, data));
    }
  }

  lemma NothingToDo(mem: seq<byte>, addr: nat)
    ensures Outcome(mem, addr, []) == mem && RoundUp(0) == 0
  {
    SizesPositive(addr, 0, 0);
    assert Padded([]) == [];
  }

  // ---- Commands ----

  /** cmd_arg, then the command word. */
  method Issue(c: Controller, cmd: Command, arg: word)
    requires c.tx == [] && cmd == Masked(cmd)
    requires cmd.exec == 1
    modifies c
    ensures c.tx == []
    ensures cmd.dummyCycles == 0 ==>
              && c.chip == Execute(old(c.chip), Preamble(cmd, arg) + Taken(old(c.txQueue), 2 * cmd.dataWords))
              && c.txQueue == Rest(old(c.txQueue), 2 * cmd.dataWords) && c.rxQueue == old(c.rxQueue)
    ensures cmd.dummyCycles != 0 ==>
              && c.chip == Execute(old(c.chip), Preamble(cmd, arg) + Taken([], 2 * cmd.dataWords))
              && c.txQueue == old(c.txQueue)
              && c.rxQueue == old(c.rxQueue) + Answers(old(c.chip), Preamble(cmd, arg), cmd.dataWords)
  {
    hide Execute, Pack, Unpack, Preamble, Answers, Masked;
    c.cmdArg := arg;
    UnpackPack(cmd);
    c.WriteCommand(Pack(cmd));
  }

  lemma SmallFields(code: byte, hasArg: nat, dummy: nat, words: nat)
    requires hasArg < 2 && dummy < 32 && words < 256
    ensures var cmd := Command(1, code, hasArg, dummy, words, 1); cmd == Masked(cmd)
  {
    hide Low, Pow2;
    Shift8(0);
    SmallPowers();
    Small(1, 1);
    Small(code, 8);
    Small(hasArg, 1);
    Small(dummy, 5);
    Small(words, 8);
  }

  method Wren(c: Controller)
    requires c.tx == []
    modifies c
    ensures c.tx == [] && c.txQueue == old(c.txQueue) && c.rxQueue == old(c.rxQueue)
    ensures c.chip == if old(c.chip).busy > 0 then old(c.chip) else old(c.chip).(wel := true)
  {
    SmallFields(WREN, 0, 0, 0);
    hide Masked, Erase, Program;
    Issue(c, Command(1, WREN, 0, 0, 0, 1), 0);
  }

  method Rdsr(c: Controller) returns (status: nat)
    requires c.tx == [] && c.rxQueue == []
    modifies c
    ensures c.tx == [] && c.txQueue == old(c.txQueue) && c.rxQueue == []
    ensures c.chip == old(c.chip).(busy := Sooner(old(c.chip).busy)) && status == Status(old(c.chip))
  {
    SmallFields(RDSR, 1, 4, 1);
    hide Masked, Erase, Program, Dummies, Status, Sooner;
    var cmd := Command(1, RDSR, 1, 4, 1, 1);
    ghost var chip := c.chip;
    Issue(c, cmd, 0);
    var pre := Preamble(cmd, 0);
    ghost var s: byte := Status(chip);
    assert pre + Taken([], 0) == pre;
    assert Answers(chip, pre, 0) == [];
    assert c.rxQueue == [s, 0];
    assert c.rxQueue[..2] == [s, 0] && [s, 0][1..] == [0] && [0][1..] == [];
    assert LeValue([s, 0]) == s;
    status := c.ReadRx();
  }

  /** What every command leaves: a busy chip is not enabled. */
  ghost predicate Calm(chip: Chip) {
    chip.busy > 0 ==> !chip.wel
  }

  /** Write enable, repeated until the status register shows it: this waits for the chip too. */
  method WriteEnable(c: Controller)
    requires c.tx == [] && c.rxQueue == [] && Calm(c.chip)
    modifies c
    ensures c.tx == [] && c.txQueue == old(c.txQueue) && c.rxQueue == []
    ensures c.chip == old(c.chip).(wel := true, busy := 0)
  {
    var status := 0;
    while status / 2 % 2 == 0
      invariant c.tx == [] && c.txQueue == old(c.txQueue) && c.rxQueue == []
      invariant c.chip == old(c.chip).(wel := c.chip.wel, busy := c.chip.busy) && Calm(c.chip)
      invariant status / 2 % 2 == 0 || c.chip.wel
      decreases c.chip.busy, status / 2 % 2 == 0
    {
      Wren(c);
      status := Rdsr(c);
    }
  }

  /** The status register read until the chip is no longer busy. */
  method WaitReady(c: Controller)
    requires c.tx == [] && c.rxQueue == []
    modifies c
    ensures c.tx == [] && c.txQueue == old(c.txQueue) && c.rxQueue == []
    ensures c.chip == old(c.chip).(busy := 0)
  {
    var status := Rdsr(c);
    while status % 2 != 0
      invariant c.tx == [] && c.txQueue == old(c.txQueue) && c.rxQueue == []
      invariant c.chip == old(c.chip).(busy := c.chip.busy)
      invariant status % 2 == 0 ==> c.chip.busy == 0
      decreases c.chip.busy, status % 2 != 0
    {
      status := Rdsr(c);
    }
  }

  method EraseAt(c: Controller, addr: word, size: nat)
    requires c.tx == [] && c.txQueue == [] && c.chip.wel && c.chip.busy == 0 && size in {SECTOR, BLOCK}
    modifies c
    ensures c.tx == [] && c.txQueue == [] && c.rxQueue == old(c.rxQueue)
    ensures c.chip == Chip(Erase(old(c.chip).mem, addr, size), false, c.chip.busy, old(c.chip).latency)
  {
    var code: byte;
    if size == SECTOR {
      code := SE4B;
    } else {
      code := BE4B;
    }
    SmallFields(code, 1, 0, 0);
    hide Masked, Erase, Program, BeBytes, BeValue, Pow2;
    var cmd := Command(1, code, 1, 0, 0, 1);
    Issue(c, cmd, addr);
    Pow2Word();
    BeValueOfBytes(addr, 4);
    var tx := Preamble(cmd, addr) + Taken([], 0);
    assert tx[2..6] == BeBytes(addr, 4);
  }

  /** The chunk waits in the FIFO; the command takes it from there. */
  method ProgramAt(c: Controller, addr: word, n: nat)
    requires c.tx == [] && |c.txQueue| == n && n % 2 == 0 && n <= PAGE && c.chip.wel && c.chip.busy == 0
    modifies c
    ensures c.tx == [] && c.txQueue == [] && c.rxQueue == old(c.rxQueue)
    ensures c.chip == Chip(Program(old(c.chip).mem, addr, old(c.txQueue)), false, c.chip.busy, old(c.chip).latency)
  {
    SmallFields(PP4B, 1, 0, n / 2);
    hide Masked, Execute, Program, BeBytes, Pow2;
    var cmd := Command(1, PP4B, 1, 0, n / 2, 1);
    ghost var q, chip := c.txQueue, c.chip;
    Issue(c, cmd, addr);
    assert Taken(q, n) == q;
    ExecuteProgram(chip, addr, q);
  }

  lemma ExecuteProgram(chip: Chip, addr: word, data: seq<byte>)
    requires chip.wel && chip.busy == 0
    ensures var tx := [PP4B, 255 - PP4B] + BeBytes(addr, 4) + data;
            Execute(chip, tx) == Chip(Program(chip.mem, addr, data), false, chip.latency(tx), chip.latency)
  {
    hide Erase, Program, BeBytes, BeValue, Pow2;
    var tx := [PP4B, 255 - PP4B] + BeBytes(addr, 4) + data;
    Pow2Word();
    BeValueOfBytes(addr, 4);
    assert tx[2..6] == BeBytes(addr, 4) && tx[6..] == data;
  }

  /** Packets of up to 4096 bytes, written to the FIFO as 16-bit words. */
  method BurstWrite(c: Controller, data: seq<byte>)
    requires |data| % 2 == 0
    modifies c`txQueue
    ensures c.txQueue == old(c.txQueue) + data
  {
    ghost var q := c.txQueue;
    if |data| == 0 { return; }
    var packets, last := |data| / 4096, |data| % 4096;
    assert |data| == 4096 * packets + last && last % 2 == 0;
    if last != 0 { packets := packets + 1; }
    assert q + data[..0] == q;
    for k := 0 to packets
      invariant k < packets ==> 4096 * k < |data| && c.txQueue == q + data[..4096 * k]
      invariant k == packets ==> c.txQueue == q + data[..|data|]
    {
      var size;
      if k == packets - 1 {
        if last != 0 { size := last; } else { size := 4096; }
      } else {
        size := 4096;
      }
      assert if k == packets - 1 then 4096 * k + size == |data| else 4096 * (k + 1) < |data|;
      WritePacket(c, data[4096 * k..4096 * k + size]);
      assert data[..4096 * k + size] == data[..4096 * k] + data[4096 * k..4096 * k + size];
    }
    assert data[..|data|] == data;
  }

  method WritePacket(c: Controller, wdata: seq<byte>)
    requires |wdata| % 2 == 0
    modifies c`txQueue
    ensures c.txQueue == old(c.txQueue) + wdata
  {
    hide LeBytes, LeValue;
    ghost var q := c.txQueue;
    var i := 0;
    while i < |wdata|
      invariant 0 <= i <= |wdata| && i % 2 == 0
      invariant c.txQueue == q + wdata[..i]
    {
      var w := wdata[i..i + 2];
      LeBytesOfValue(w);
      c.WriteTx(LeValue(w));
      assert wdata[..i + 2] == wdata[..i] + w;
      i := i + 2;
    }
    assert wdata[..i] == wdata;
  }

  method EraseLoop(c: Controller, addr: nat, len: nat)
    requires c.Idle() && Calm(c.chip) && addr + len <= WORD
    modifies c
    ensures c.Idle() && Calm(c.chip)
    ensures forall op :: op in Erases(addr, len, 0) ==> op.size > 0
    ensures c.chip.mem == EraseAll(old(c.chip).mem, Erases(addr, len, 0))
  {
    hide Erase, Erases, EraseAll;
    ghost var mem := c.chip.mem;
    ghost var ops := Erases(addr, len, 0);
    EraseFirst(mem, addr, len, 0);
    var erased := 0;
    while erased < len
      invariant c.Idle() && Calm(c.chip) && |c.chip.mem| == |mem|
      invariant forall op :: op in Erases(addr, len, erased) ==> op.size > 0
      invariant EraseAll(c.chip.mem, Erases(addr, len, erased)) == EraseAll(mem, ops)
    {
      EraseFirst(c.chip.mem, addr, len, erased);
      var size;
      if len - erased >= BLOCK && addr % BLOCK == 0 {
        size := BLOCK;
      } else {
        size := SECTOR;
      }
      WriteEnable(c);
      EraseAt(c, addr + erased, size);
      WaitReady(c);
      erased := erased + size;
    }
    EraseFirst(c.chip.mem, addr, len, erased);
  }

  lemma ChunksOfFour(len: nat, written: nat)
    requires len % 4 == 0 && written % 4 == 0 && written < len
    ensures var n := ChunkLength(len - written);
            n % 2 == 0 && written + n <= len && (written + n) % 4 == 0 && written + 4 <= len
  {
    var j, k := len / 4, written / 4;
    assert len == 4 * j && written == 4 * k;
    DivUnique(len - written, 2, 2 * (j - k), 0);
    MultipleSum(written, PAGE, 4);
  }

  method ProgramLoop(c: Controller, addr: nat, data: seq<byte>)
    requires c.Idle() && Calm(c.chip) && addr + |data| < WORD + 4 && |data| % 4 == 0
    modifies c
    ensures c.Idle() && Calm(c.chip) && c.chip.mem == ProgramAll(old(c.chip).mem, addr, data, 0)
  {
    hide Program;
    ghost var mem := c.chip.mem;
    var written := 0;
    while written < |data|
      invariant c.Idle() && Calm(c.chip) && written <= |data| && written % 4 == 0
      invariant ProgramAll(c.chip.mem, addr, data, written) == ProgramAll(mem, addr, data, 0)
    {
      var n;
      if |data| - written > PAGE {
        n := PAGE;
      } else {
        n := |data| - written;
      }
      ChunksOfFour(|data|, written);
      WriteEnable(c);
      BurstWrite(c, data[written..written + n]);
      assert c.txQueue == data[written..written + n];
      ProgramAt(c, addr + written, n);
      written := written + n;
    }
  }

  /** The two words of the chip's identification, as read. */
  datatype Id = Id(first: nat, second: nat)

  const EXPECTED := Id(0x8080c2c2, 0x3b3b8080)

  /** erase_region */
  method EraseRegionAt(c: Controller, id: Id, addr: nat, len: nat) returns (ok: bool)
    requires c.Idle() && Calm(c.chip) && addr + len <= WORD
    modifies c
    ensures c.Idle() && Calm(c.chip) && ok == (id == EXPECTED)
    ensures !ok ==> c.chip == old(c.chip)
    ensures ok ==>
              && |c.chip.mem| == |old(c.chip).mem|
              && forall i :: 0 <= i < |c.chip.mem| ==>
                   c.chip.mem[i] == if Base(addr) <= i < Base(addr) + RoundUp(len) then 0xFF else old(c.chip).mem[i]
  {
    if id != EXPECTED { return false; }
    ghost var mem := c.chip.mem;
    EraseLoop(c, addr, len);
    hide EraseAll, Erases;
    forall i | 0 <= i < |mem|
      ensures c.chip.mem[i] == if Base(addr) <= i < Base(addr) + RoundUp(len) then 0xFF else mem[i]
    {
      EraseRegion(mem, addr, len, 0, i);
    }
    ok := true;
  }

  /** flash_program, up to verification. */
  method FlashProgram(c: Controller, id: Id, addr: nat, data: seq<byte>) returns (ok: bool)
    requires c.Idle() && Calm(c.chip) && |c.chip.mem| <= WORD
    modifies c
    ensures c.Idle() && Calm(c.chip) && ok == (addr + |data| <= |old(c.chip).mem| && id == EXPECTED)
    ensures !ok ==> c.chip == old(c.chip)
    ensures ok && addr % SECTOR == 0 ==> Ideal(old(c.chip).mem, addr, data, c.chip.mem)
    ensures ok ==> c.chip.mem == Outcome(old(c.chip).mem, addr, data)
  {
    hide EraseAll, ProgramAll, Erases, Ideal;
    ghost var mem := c.chip.mem;
    if addr + |data| > |c.chip.mem| { return false; }
    if id != EXPECTED { return false; }
    EraseLoop(c, addr, |data|);
    var padded := data;
    if |padded| % 4 != 0 {
      padded := padded + seq(4 - |padded| % 4, _ => 0xFF);
    }
    assert padded == Padded(data);
    ProgramLoop(c, addr, padded);
    if addr % SECTOR == 0 { AlignedIsIdeal(mem, addr, data); }
    ok := true;
  }
}
