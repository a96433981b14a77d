/** The flash controller: packed command words, a transmit and a receive FIFO of bytes. */
module Spinor {
  import opened Bits
  import opened Bytes
  import opened Nor
  import opened Words

  // ---- Command words ----

  datatype Command = Command(exec: nat, cmdCode: nat, hasArg: nat, dummyCycles: nat, dataWords: nat, lockReads: nat)

  /** Host side: every field is masked and shifted into place. */
  function Pack(c: Command): nat {
    Or(Or(Or(Or(Or(Shl(Low(c.exec, 1), 1),
                   Shl(Low(c.lockReads, 1), 24)),
                Shl(Low(c.cmdCode, 8), 2)),
             Shl(Low(c.dummyCycles, 5), 11)),
          Shl(Low(c.dataWords, 8), 16)),
       Shl(Low(c.hasArg, 1), 10))
  }

  /** Bits n..n+w of v. */
  function Field(v: nat, n: nat, w: nat): nat {
    Low(Shr(v, n), w)
  }

  /** Controller side. */
  function Unpack(v: nat): Command {
    Command(Field(v, 1, 1), Field(v, 2, 8), Field(v, 10, 1), Field(v, 11, 5), Field(v, 16, 8), Field(v, 24, 1))
  }

  function Masked(c: Command): Command {
    Command(Low(c.exec, 1), Low(c.cmdCode, 8), Low(c.hasArg, 1), Low(c.dummyCycles, 5), Low(c.dataWords, 8),
            Low(c.lockReads, 1))
  }

  lemma FieldOr(a: nat, b: nat, n: nat, w: nat)
    ensures Field(Or(a, b), n, w) == Or(Field(a, n, w), Field(b, n, w))
  {
    hide Or, Shr, Low;
    OrShr(a, b, n);
    OrLow(Shr(a, n), Shr(b, n), w);
  }

  /** A shifted field shows only in its own place. */
  lemma FieldShl(x: nat, xw: nat, k: nat, n: nat, w: nat)
    requires x < Pow2(xw)
    ensures k == n && xw == w ==> Field(Shl(x, k), n, w) == x
    ensures k + xw <= n || n + w <= k ==> Field(Shl(x, k), n, w) == 0
  {
    hide Shl, Shr, Low;
    if k == n && xw == w {
      Join(x, 0, k);
      Small(x, w);
    } else if k + xw <= n {
      Join(x, 0, k);
      Small(x, xw);
      ShrShr(Shl(x, k), k, xw);
      ShrShr(Shl(x, k), k + xw, n - k - xw);
      ShlZero(n - k - xw);
      ShlZero(w);
    } else if n + w <= k {
      ShlShl(x, k - n, n);
      Join(Shl(x, k - n), 0, n);
      ShlShl(x, k - n - w, w);
      Join(Shl(x, k - n - w), 0, w);
    }
  }

  lemma FieldOfPack(c: Command, n: nat, w: nat)
    ensures Field(Pack(c), n, w) ==
            Or(Or(Or(Or(Or(Field(Shl(Low(c.exec, 1), 1), n, w),
                           Field(Shl(Low(c.lockReads, 1), 24), n, w)),
                        Field(Shl(Low(c.cmdCode, 8), 2), n, w)),
                     Field(Shl(Low(c.dummyCycles, 5), 11), n, w)),
                  Field(Shl(Low(c.dataWords, 8), 16), n, w)),
               Field(Shl(Low(c.hasArg, 1), 10), n, w))
  {
    hide Or, Field, Shl, Low;
    var a, b := Shl(Low(c.exec, 1), 1), Shl(Low(c.lockReads, 1), 24);
    var d, e := Shl(Low(c.cmdCode, 8), 2), Shl(Low(c.dummyCycles, 5), 11);
    var f, g := Shl(Low(c.dataWords, 8), 16), Shl(Low(c.hasArg, 1), 10);
    FieldOr(a, b, n, w);
    FieldOr(Or(a, b), d, n, w);
    FieldOr(Or(Or(a, b), d), e, n, w);
    FieldOr(Or(Or(Or(a, b), d), e), f, n, w);
    FieldOr(Or(Or(Or(Or(a, b), d), e), f), g, n, w);
  }

  /** The controller reads back every field the host packed, cut to its width. */
  lemma UnpackPack(c: Command)
    ensures Unpack(Pack(c)) == Masked(c)
  {
    hide Or, Field, Shl, Low, Pack;
    OneField(c, 1, 1);
    OneField(c, 2, 8);
    OneField(c, 10, 1);
    OneField(c, 11, 5);
    OneField(c, 16, 8);
    OneField(c, 24, 1);
  }

  lemma OneField(c: Command, n: nat, w: nat)
    requires (n, w) in {(1, 1), (2, 8), (10, 1), (11, 5), (16, 8), (24, 1)}
    ensures Field(Pack(c), n, w) ==
            if n == 1 then Low(c.exec, 1) else if n == 2 then Low(c.cmdCode, 8) else if n == 10 then Low(c.hasArg, 1)
            else if n == 11 then Low(c.dummyCycles, 5) else if n == 16 then Low(c.dataWords, 8)
            else Low(c.lockReads, 1)
  {
    hide Or, Field, Shl, Low, Pack;
    FieldOfPack(c, n, w);
    LowBound(c.exec, 1);
    LowBound(c.lockReads, 1);
    LowBound(c.cmdCode, 8);
    LowBound(c.dummyCycles, 5);
    LowBound(c.dataWords, 8);
    LowBound(c.hasArg, 1);
    FieldShl(Low(c.exec, 1), 1, 1, n, w);
    FieldShl(Low(c.lockReads, 1), 1, 24, n, w);
    FieldShl(Low(c.cmdCode, 8), 8, 2, n, w);
    FieldShl(Low(c.dummyCycles, 5), 5, 11, n, w);
    FieldShl(Low(c.dataWords, 8), 8, 16, n, w);
    FieldShl(Low(c.hasArg, 1), 1, 10, n, w);
    OrZero(0);
    OrZero(Field(Pack(c), n, w));
    OrZero(Low(c.exec, 1));
    OrZero(Low(c.cmdCode, 8));
    OrZero(Low(c.hasArg, 1));
    OrZero(Low(c.dummyCycles, 5));
    OrZero(Low(c.dataWords, 8));
    OrZero(Low(c.lockReads, 1));
  }

  /** The command words of write enable, of a status reading, and of programming 256 bytes. */
  lemma PackedCommands()
    ensures Pack(Command(1, 0x06, 0, 0, 0, 1)) == 0x100_001a
    ensures Pack(Command(1, 0x05, 1, 4, 1, 1)) == 0x101_2416
    ensures Pack(Command(1, 0x12, 1, 0, 128, 1)) == 0x180_044a
  {
    hide Low, Shl, Or, Pow2;
    PackSum(Command(1, 0x06, 0, 0, 0, 1));
    PackSum(Command(1, 0x05, 1, 4, 1, 1));
    PackSum(Command(1, 0x12, 1, 0, 128, 1));
  }

  /** Fields within their widths add up, each in its place. */
  lemma PackSum(c: Command)
    requires c.exec < 2 && c.cmdCode < 256 && c.hasArg < 2 && c.dummyCycles < 32 && c.dataWords < 256 && c.lockReads < 2
    ensures Pack(c) == 0x2 * c.exec + 0x4 * c.cmdCode + 0x400 * c.hasArg + 0x800 * c.dummyCycles
                       + 0x1_0000 * c.dataWords + 0x100_0000 * c.lockReads
  {
    hide Pack, Field, Low, Shl, Shr, Pow2;
    var v := Pack(c);
    UnpackPack(c);
    SmallCommand(c);
    NoField(c, 0, 1);
    NoField(c, 25, v);
    FieldPlaces(v);
    Places(v);
    assert v / 0x200_0000 == 0 by { UpperEmpty(v); }
  }

  lemma SmallCommand(c: Command)
    requires c.exec < 2 && c.cmdCode < 256 && c.hasArg < 2 && c.dummyCycles < 32 && c.dataWords < 256 && c.lockReads < 2
    ensures Masked(c) == c
  {
    hide Low, Pow2;
    SmallPowers();
    Shift8(0);
    Small(c.exec, 1);
    Small(c.cmdCode, 8);
    Small(c.hasArg, 1);
    Small(c.dummyCycles, 5);
    Small(c.dataWords, 8);
    Small(c.lockReads, 1);
  }

  /** Nothing is packed below the first field or above the last. */
  lemma NoField(c: Command, n: nat, w: nat)
    requires (n == 0 && w == 1) || n == 25
    ensures Field(Pack(c), n, w) == 0
  {
    hide Or, Field, Shl, Low, Pack;
    FieldOfPack(c, n, w);
    LowBound(c.exec, 1);
    LowBound(c.lockReads, 1);
    LowBound(c.cmdCode, 8);
    LowBound(c.dummyCycles, 5);
    LowBound(c.dataWords, 8);
    LowBound(c.hasArg, 1);
    FieldShl(Low(c.exec, 1), 1, 1, n, w);
    FieldShl(Low(c.lockReads, 1), 1, 24, n, w);
    FieldShl(Low(c.cmdCode, 8), 8, 2, n, w);
    FieldShl(Low(c.dummyCycles, 5), 5, 11, n, w);
    FieldShl(Low(c.dataWords, 8), 8, 16, n, w);
    FieldShl(Low(c.hasArg, 1), 1, 10, n, w);
    OrZero(0);
  }

  lemma FieldIs(v: nat, n: nat, w: nat, p: nat, q: nat)
    requires p == Pow2(n) && q == Pow2(w)
    ensures Field(v, n, w) == v / p % q
  {
    hide Shr, Low, Pow2;
    ShrDiv(v, n, p);
    ShrDiv(Shr(v, n), w, q);
  }

  lemma FieldPlaces(v: nat)
    ensures Field(v, 0, 1) == v % 2 && Field(v, 1, 1) == v / 2 % 2 && Field(v, 2, 8) == v / 4 % 256
    ensures Field(v, 10, 1) == v / 0x400 % 2 && Field(v, 11, 5) == v / 0x800 % 32
    ensures Field(v, 16, 8) == v / 0x1_0000 % 256 && Field(v, 24, 1) == v / 0x100_0000 % 2
  {
    assert Pow2(0) == 1 && Pow2(2) == 4;
    SmallPowers();
    Shift8(0);
    assert Pow2(10) == 0x400 && Pow2(11) == 0x800;
    assert Pow2(16) == 0x1_0000 && Pow2(24) == 0x100_0000 by { Pow2Byte(8); Pow2Byte(16); }
    hide Field, Pow2;
    FieldIs(v, 0, 1, 1, 2);
    FieldIs(v, 1, 1, 2, 2);
    FieldIs(v, 2, 8, 4, 256);
    FieldIs(v, 10, 1, 0x400, 2);
    FieldIs(v, 11, 5, 0x800, 32);
    FieldIs(v, 16, 8, 0x1_0000, 256);
    FieldIs(v, 24, 1, 0x100_0000, 2);
  }

  lemma UpperEmpty(v: nat)
    requires Field(v, 25, v) == 0
    ensures v / 0x200_0000 == 0
  {
    hide Shr, Low, Pow2, Shl;
    assert Pow2(25) == 0x200_0000 by { Pow2Word(); Pow2Down(); }
    ShrDiv(v, 25, 0x200_0000);
    BelowPower(v);
    Small(Shr(v, 25), v);
  }

  lemma Pow2Down()
    ensures Pow2(32) == 128 * Pow2(25)
  {
    assert Pow2(27) == 4 * Pow2(25);
    assert Pow2(29) == 16 * Pow2(25);
    assert Pow2(31) == 64 * Pow2(25);
  }

  lemma {:induction false} BelowPower(v: nat)
    ensures v < Pow2(v)
  {
    if v > 0 { BelowPower(v - 1); }
  }

  /** A number from its parts. */
  lemma Places(v: nat)
    ensures v == v % 2 + 0x2 * (v / 2 % 2) + 0x4 * (v / 4 % 256) + 0x400 * (v / 0x400 % 2) + 0x800 * (v / 0x800 % 32)
                 + 0x1_0000 * (v / 0x1_0000 % 256) + 0x100_0000 * (v / 0x100_0000 % 2) + 0x200_0000 * (v / 0x200_0000)
  {
    Cut(v, 1, 2);
    Cut(v, 2, 2);
    Cut(v, 4, 256);
    Cut(v, 0x400, 2);
    Cut(v, 0x800, 32);
    Cut(v, 0x1_0000, 256);
    Cut(v, 0x100_0000, 2);
  }

  lemma Cut(v: nat, p: nat, q: nat)
    requires p > 0 && q > 0
    ensures v / p == v / p % q + q * (v / (p * q)) && v / 1 == v
  {
    var u := v / p;
    var a, b := u / q, u % q;
    assert v == p * u + v % p;
    assert p * u == p * q * a + p * b;
    MulMono(b, q - 1, p);
    assert p * (q - 1) == p * q - p;
    DivUnique(v, p * q, a, p * b + v % p);
  }

  // ---- Transactions ----

  /** The first n bytes of the queue, 0xFF once it runs dry. */
  function Taken(queue: seq<byte>, n: nat): (t: seq<byte>)
    ensures |t| == n
    ensures forall i :: 0 <= i < n ==> t[i] == if i < |queue| then queue[i] else 0xFF
  {
    if n == 0 then [] else Taken(queue, n - 1) + [if n - 1 < |queue| then queue[n - 1] else 0xFF]
  }

  /** The address, and 0xFF beyond it, clocked out while the chip gets ready. */
  function Dummies(hasArg: bool, arg: word, n: nat): (t: seq<byte>)
    ensures |t| == n
  {
    if n == 0 then [] else Dummies(hasArg, arg, n - 1) + [if hasArg && n <= 4 then BeBytes(arg, 4)[n - 1] else 0xFF]
  }

  /** Everything the chip sees of a command before its data. */
  function Preamble(c: Command, arg: word): seq<byte> {
    var code: byte := c.cmdCode % 256;
    [code, 255 - code] +
    if c.dummyCycles != 0 then Dummies(c.hasArg == 1, arg, c.dummyCycles)
    else if c.hasArg == 1 then BeBytes(arg, 4) else []
  }

  /** Two bytes a word; the second is the high half of a byte and so always 0. */
  function Answers(chip: Chip, pre: seq<byte>, n: nat): seq<byte> {
    if n == 0 then [] else Answers(chip, pre, n - 1) + [Response(chip, pre + Taken([], 2 * n - 2)), 0]
  }

  class Controller {
    var cmd: Command
    var cmdArg: word
    var txQueue: seq<byte>
    var rxQueue: seq<byte>
    var chip: Chip
    /** Bytes of the transaction under way. */
    var tx: seq<byte>

    constructor (chip: Chip)
      ensures Idle() && this.chip == chip
    {
      this.chip := chip;
      cmd, cmdArg, txQueue, rxQueue, tx := Command(0, 0, 0, 0, 0, 0), 0, [], [], [];
    }

    predicate Idle()
      reads this
    {
      tx == [] && txQueue == [] && rxQueue == []
    }

    method Transmit(b: byte) returns (r: byte)
      modifies this`tx
      ensures tx == old(tx) + [b] && r == Response(chip, old(tx))
    {
      r := Response(chip, tx);
      tx := tx + [b];
    }

    method Finish()
      modifies this`tx, this`chip
      ensures tx == [] && chip == Execute(old(chip), old(tx))
    {
      chip := Execute(chip, tx);
      tx := [];
    }

    /** HandleTxFifoWrite: a 16-bit word, low byte first. */
    method WriteTx(value: nat)
      modifies this`txQueue
      ensures txQueue == old(txQueue) + LeBytes(value, 2)
    {
      assert LeBytes(value / 256, 1) == [value / 256 % 256];
      txQueue := txQueue + [value % 256];
      txQueue := txQueue + [value / 256 % 256];
    }

    /** HandleRxFifoRead: up to four bytes, the first lowest. */
    method ReadRx() returns (v: nat)
      modifies this`rxQueue
      ensures v == LeValue(old(rxQueue)[..if |old(rxQueue)| < 4 then |old(rxQueue)| else 4])
      ensures rxQueue == Rest(old(rxQueue), 4)
    {
      hide LeValue;
      ghost var q := rxQueue;
      ghost var n := if |q| < 4 then |q| else 4;
      var k: nat, scale: nat := 0, 1;
      v := 0;
      LeEmpty(q[..0]);
      while k < 4
        invariant 0 <= k <= 4 && scale > 0
        invariant rxQueue == Rest(q, k)
        invariant k <= n ==> scale == Pow2(8 * k)
        invariant v == LeValue(q[..if k < n then k else n])
      {
        if |rxQueue| > 0 {
          LeAppend(q[..k], q[k]);
          assert q[..k + 1] == q[..k] + [q[k]];
          Pow2Byte(8 * k);
          var b: nat := rxQueue[0];
          v := v + b * scale;
          rxQueue := rxQueue[1..];
        }
        scale := scale * 256;
        k := k + 1;
      }
    }

    /** The Command register. */
    method WriteCommand(data: nat)
      requires tx == []
      modifies this`cmd, this`txQueue, this`rxQueue, this`chip, this`tx
      ensures tx == [] && cmd == Unpack(data)
      ensures cmd.exec != 1 ==> chip == old(chip) && txQueue == old(txQueue) && rxQueue == old(rxQueue)
      ensures cmd.exec == 1 && cmd.dummyCycles == 0 ==>
                && chip == Execute(old(chip), Preamble(cmd, cmdArg) + Taken(old(txQueue), 2 * cmd.dataWords))
                && txQueue == Rest(old(txQueue), 2 * cmd.dataWords) && rxQueue == old(rxQueue)
      ensures cmd.exec == 1 && cmd.dummyCycles != 0 ==>
                && chip == Execute(old(chip), Preamble(cmd, cmdArg) + Taken([], 2 * cmd.dataWords))
                && txQueue == old(txQueue)
                && rxQueue == old(rxQueue) + Answers(old(chip), Preamble(cmd, cmdArg), cmd.dataWords)
    {
      hide Execute, Response, BeBytes, Unpack;
      cmd := Unpack(data);
      if cmd.exec == 1 {
        var code: byte := cmd.cmdCode % 256;
        var _ := Transmit(code);
        var _ := Transmit(255 - code);
        ghost var pre := Preamble(cmd, cmdArg);
        if cmd.dummyCycles == 0 {
          SendArg();
          assert tx == pre;
          SendData(pre);
        } else {
          SendDummies();
          assert tx == pre;
          Receive(pre);
        }
        Finish();
      }
    }

    method SendArg()
      modifies this`tx
      ensures tx == old(tx) + if cmd.hasArg == 1 then BeBytes(cmdArg, 4) else []
    {
      hide Response;
      if cmd.hasArg == 1 {
        ghost var before := tx;
        WordOctets(cmdArg);
        hide BeBytes;
        var _ := Transmit(cmdArg / 0x100_0000 % 256);
        var _ := Transmit(cmdArg / 0x1_0000 % 256);
        var _ := Transmit(cmdArg / 0x100 % 256);
        var _ := Transmit(cmdArg % 256);
        assert tx == before + BeBytes(cmdArg, 4);
      }
    }

    method SendData(ghost pre: seq<byte>)
      requires tx == pre
      modifies this`tx, this`txQueue
      ensures tx == pre + Taken(old(txQueue), 2 * cmd.dataWords)
      ensures txQueue == Rest(old(txQueue), 2 * cmd.dataWords)
    {
      hide Response, Taken;
      ghost var q := txQueue;
      for i := 0 to cmd.dataWords
        invariant tx == pre + Taken(q, 2 * i) && txQueue == Rest(q, 2 * i)
      {
        SendByte();
        SendByte();
        assert tx == pre + Taken(q, 2 * i + 2);
      }
    }

    method SendByte()
      modifies this`tx, this`txQueue
      ensures tx == old(tx) + [if old(txQueue) != [] then old(txQueue)[0] else 0xFF]
      ensures txQueue == if old(txQueue) != [] then old(txQueue)[1..] else []
    {
      hide Response;
      if |txQueue| > 0 {
        var b := txQueue[0];
        txQueue := txQueue[1..];
        var _ := Transmit(b);
      } else {
        var _ := Transmit(0xFF);
      }
    }

    method SendDummies()
      modifies this`tx
      ensures tx == old(tx) + Dummies(cmd.hasArg == 1, cmdArg, cmd.dummyCycles)
    {
      hide Response;
      ghost var pre := tx;
      WordOctets(cmdArg);
      hide BeBytes;
      for i := 0 to cmd.dummyCycles
        invariant tx == pre + Dummies(cmd.hasArg == 1, cmdArg, i)
      {
        var b: byte;
        if cmd.hasArg == 1 && i == 0 {
          b := cmdArg / 0x100_0000 % 256;
        } else if cmd.hasArg == 1 && i == 1 {
          b := cmdArg / 0x1_0000 % 256;
        } else if cmd.hasArg == 1 && i == 2 {
          b := cmdArg / 0x100 % 256;
        } else if cmd.hasArg == 1 && i == 3 {
          b := cmdArg % 256;
        } else {
          b := 0xFF;
        }
        var _ := Transmit(b);
      }
    }

    method Receive(ghost pre: seq<byte>)
      requires tx == pre
      modifies this`tx, this`rxQueue
      ensures tx == pre + Taken([], 2 * cmd.dataWords)
      ensures rxQueue == old(rxQueue) + Answers(chip, pre, cmd.dataWords)
    {
      hide Response, Taken;
      ghost var q := rxQueue;
      for i := 0 to cmd.dataWords
        invariant tx == pre + Taken([], 2 * i)
        invariant rxQueue == q + Answers(chip, pre, i)
      {
        var a := Transmit(0xFF);
        rxQueue := rxQueue + [a];
        var b := Transmit(0xFF);
        rxQueue := rxQueue + [b / 256];
        assert tx == pre + Taken([], 2 * i + 2);
      }
    }
  }

  lemma LeEmpty(s: seq<byte>)
    requires s == []
    ensures LeValue(s) == 0
  {
  }
}
