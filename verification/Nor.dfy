/** NOR flash behind the controller: erase sets bits, programming clears them, both only when enabled and not busy. */
module Nor {
  import opened Bits
  import opened Bytes

  const WREN: byte := 0x06
  const WRDI: byte := 0x04
  const RDSR: byte := 0x05
  const SE4B: byte := 0x21
  const BE4B: byte := 0xDC
  const PP4B: byte := 0x12

  const SECTOR := 4096
  const BLOCK := 65536
  const PAGE := 256

  /**
   Contents, the write-enable latch, and for how many more readings of its status the chip is busy; how long an
   erase or program command keeps it busy is anyone's guess.
   */
  datatype Chip = Chip(mem: seq<byte>, wel: bool, busy: nat, latency: seq<byte> -> nat)

  lemma AndByte(d: byte, m: nat)
    ensures And(d, m) < 256
  {
    hide And, Pow2;
    Shift8(0);
    AndBound(d, m, 8);
  }

  lemma {:induction false} AndBound(a: nat, b: nat, n: nat)
    requires a < Pow2(n)
    ensures And(a, b) < Pow2(n)
  {
    if n == 0 {
      AndZero(b);
    } else {
      AndBound(a / 2, b / 2, n - 1);
    }
  }

  function ByteAnd(d: byte, m: byte): byte {
    AndByte(d, m);
    And(d, m)
  }

  lemma ProgramErased(d: byte)
    ensures ByteAnd(d, 0xFF) == d
  {
    hide And, Low, Pow2;
    Shift8(d);
    AndLow(d, 8);
  }

  /** The aligned stretch of `size` bytes around addr is erased. */
  function Erase(mem: seq<byte>, addr: nat, size: nat): (m: seq<byte>)
    requires size > 0
    ensures |m| == |mem|
    ensures forall i :: 0 <= i < |mem| ==> m[i] == if i / size == addr / size then 0xFF else mem[i]
  {
    seq(|mem|, i requires 0 <= i < |mem| => if i / size == addr / size then 0xFF else mem[i])
  }

  /** Programming wraps around within the 256-byte page of addr. */
  predicate Programs(addr: nat, n: nat, i: nat) {
    i / PAGE == addr / PAGE && (i - addr) % PAGE < n
  }

  function Programmed(m: byte, addr: nat, data: seq<byte>, i: nat): byte {
    if Programs(addr, |data|, i) then ByteAnd(data[(i - addr) % PAGE], m) else m
  }

  function Program(mem: seq<byte>, addr: nat, data: seq<byte>): (m: seq<byte>)
    ensures |m| == |mem|
    ensures forall i :: 0 <= i < |mem| ==> m[i] == Programmed(mem[i], addr, data, i)
  {
    seq(|mem|, i requires 0 <= i < |mem| => Programmed(mem[i], addr, data, i))
  }

  function Sooner(busy: nat): nat {
    if busy == 0 then 0 else busy - 1
  }

  /** The status register: enabled in bit 1, busy in bit 0. */
  function Status(chip: Chip): byte {
    (if chip.wel then 2 else 0) + if chip.busy > 0 then 1 else 0
  }

  /** A command frame: code, its complement, then what the command takes. */
  function Execute(chip: Chip, tx: seq<byte>): (c: Chip)
    ensures |c.mem| == |chip.mem|
  {
    if |tx| < 2 || tx[1] != 255 - tx[0] then chip
    else if tx[0] == RDSR then chip.(busy := Sooner(chip.busy))
    else if chip.busy > 0 then chip
    else if tx[0] == WREN then chip.(wel := true)
    else if tx[0] == WRDI then chip.(wel := false)
    else if |tx| < 6 || !chip.wel then chip
    else
      var addr := BeValue(tx[2..6]);
      if tx[0] == SE4B then Chip(Erase(chip.mem, addr, SECTOR), false, chip.latency(tx), chip.latency)
      else if tx[0] == BE4B then Chip(Erase(chip.mem, addr, BLOCK), false, chip.latency(tx), chip.latency)
      else if tx[0] == PP4B then Chip(Program(chip.mem, addr, tx[6..]), false, chip.latency(tx), chip.latency)
      else chip
  }

  /** Answer to a byte sent after tx: the status register, two bytes and an address after its code. */
  function Response(chip: Chip, tx: seq<byte>): byte {
    if |tx| >= 6 && tx[0] == RDSR && tx[1] == 255 - RDSR then Status(chip) else 0xFF
  }
}
