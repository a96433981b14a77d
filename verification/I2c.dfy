/** The emulated I2C master of the embedded controller, as register writes on a state. */
module I2c {
  import opened Bytes

  datatype Event = I2cInt | GgInt | GyroInt | UsbccInt

  /** A byte for a slave, and the number of the START it belongs to. */
  datatype Item = Item(value: byte, slave: Option<nat>, start: nat)

  /** What a slave is told: bytes handed over in one go, or that the transmission is over; and under which START. */
  datatype Call = Wrote(start: nat, slave: nat, bytes: seq<byte>) | Finished(start: nat, slave: nat)

  /**
   The transfer side. Three records of the run: the slave each START selected, every byte ever queued with START
   and slave of that time, and all calls on slaves.
   */
  datatype Bus = Bus(inProgress: bool, selected: Option<nat>, toSlave: seq<byte>,
                     starts: seq<Option<nat>>, queued: seq<Item>, calls: seq<Call>)

  /** The interrupt side. */
  datatype Lines = Lines(status: bool, pending: set<Event>, enable: set<Event>, irq: bool)

  datatype State = State(slaves: set<nat>, enabled: bool, txr: byte, rxr: byte, nack: bool, fromSlave: seq<byte>,
                         timerQueued: bool, shouldSend: bool, bus: Bus, lines: Lines)

  datatype Op =
    | WriteTxr(value: byte)
    | WriteControl(on: bool)
    | Command(start: bool, stop: bool, read: bool, write: bool, answer: seq<byte>)
    | ClearPending(events: set<Event>)
    | SetEnable(events: set<Event>)
    | Timer
    | Reset

  function Initial(slaves: set<nat>): State {
    State(slaves, false, 0, 0, false, [], false, false, Bus(false, None, [], [], [], []), Lines(false, {}, {}, false))
  }

  /** UpdateInterrupts: the status latches, and the line follows. */
  function Update(l: Lines): Lines {
    var pending := if l.status then l.pending + {I2cInt} else l.pending;
    Lines(l.status, pending, l.enable, pending * l.enable != {})
  }

  /** SendDataToSlave */
  function Send(b: Bus): Bus {
    if b.toSlave == [] || b.selected.None? then b
    else b.(toSlave := [], calls := b.calls + [Wrote(|b.starts|, b.selected.value, b.toSlave)])
  }

  /** FinishTransmission of the selected slave, if any. */
  function TellFinished(b: Bus): (c: Bus)
    ensures c == b.(calls := c.calls)
  {
    if b.selected.None? then b else b.(calls := b.calls + [Finished(|b.starts|, b.selected.value)])
  }

  /** START: a transfer under way is finished first; `slave` is the one addressed, if registered. */
  function Start(b: Bus, slave: Option<nat>): Bus {
    Select(TellFinished(if b.inProgress then Send(b) else b.(inProgress := true)), slave)
  }

  function Select(b: Bus, slave: Option<nat>): Bus {
    b.(selected := slave, starts := b.starts + [slave])
  }

  function Enqueue(b: Bus, v: byte): Bus {
    if b.inProgress
    then b.(toSlave := b.toSlave + [v], queued := b.queued + [Item(v, b.selected, |b.starts|)])
    else b
  }

  /** STOP: the slave is told that all is over, and then given its bytes. */
  function Stop(b: Bus): Bus {
    var c := TellFinished(b);
    if b.inProgress then Send(c).(inProgress := false) else c
  }

  function Addressed(s: State): Option<nat> {
    if s.txr / 2 in s.slaves then Some(s.txr / 2) else None
  }

  function Write(s: State): State {
    if !s.bus.inProgress then s
    else s.(bus := Enqueue(s.bus, s.txr), lines := Update(s.lines.(status := true)))
  }

  function Read(s: State, answer: seq<byte>): State {
    if s.bus.selected.None? then s else
    var all := s.fromSlave + answer;
    if all == [] then s.(rxr := 0) else s.(fromSlave := all[1..], rxr := all[0], lines := Update(s.lines))
  }

  /** The end of the callback: the timer, STOP, and the deferred interrupt. */
  function Finish(s: State, stop: bool): State {
    var t := s.(timerQueued := s.timerQueued || s.bus.inProgress);
    t.(bus := if stop then Stop(s.bus) else s.bus, shouldSend := s.shouldSend || !stop || s.bus.inProgress)
  }

  /** START, with the address in the transmit register. */
  function Started(s: State): State {
    s.(bus := Start(s.bus, Addressed(s)), fromSlave := [], nack := Addressed(s).None?)
  }

  /** The Command register's callback; every write acknowledges the interrupt status. */
  function DoCommand(s: State, op: Op): State
    requires op.Command?
  {
    var s0 := s.(lines := s.lines.(status := false));
    if !s0.enabled then s0 else
    var s1 := if op.start then Started(s0) else s0;
    if op.start && Addressed(s0).None? then s1 else
    var s2 := if op.write then Write(s1) else s1;
    var s3 := if op.read then Read(s2, op.answer) else s2;
    Finish(s3, op.stop)
  }

  /** What a command of an enabled controller does to the bus alone. */
  function BusCommand(b: Bus, op: Op, addressed: Option<nat>, v: byte): Bus
    requires op.Command?
  {
    var b1 := if op.start then Start(b, addressed) else b;
    if op.start && addressed.None? then b1 else
    var b2 := if op.write then Enqueue(b1, v) else b1;
    if op.stop then Stop(b2) else b2
  }

  lemma PartEffects(s: State, answer: seq<byte>, stop: bool)
    ensures Write(s).bus == Enqueue(s.bus, s.txr) && Write(s).txr == s.txr
    ensures Write(s).lines == if s.bus.inProgress then Update(s.lines.(status := true)) else s.lines
    ensures Read(s, answer).bus == s.bus
    ensures Read(s, answer).lines == s.lines || Read(s, answer).lines == Update(s.lines)
    ensures Finish(s, stop).bus == (if stop then Stop(s.bus) else s.bus) && Finish(s, stop).lines == s.lines
  {
    hide Send, Update;
  }

  lemma CommandBus(s: State, op: Op)
    requires op.Command?
    ensures DoCommand(s, op).bus == if s.enabled then BusCommand(s.bus, op, Addressed(s), s.txr) else s.bus
  {
    hide Start, Stop, Enqueue, Update, Read, Write, Finish;
    var s0 := s.(lines := s.lines.(status := false));
    var s1 := if op.start then Started(s0) else s0;
    PartEffects(s1, [], false);
    var s2 := if op.write then Write(s1) else s1;
    PartEffects(s2, op.answer, false);
    var s3 := if op.read then Read(s2, op.answer) else s2;
    PartEffects(s3, [], op.stop);
  }

  lemma CommandLines(s: State, op: Op)
    requires op.Command?
    ensures var l, l0 := DoCommand(s, op).lines, s.lines.(status := false);
            || l == l0 || l == Update(l0)
            || l == Update(l0.(status := true)) || l == Update(Update(l0.(status := true)))
  {
    hide Start, Stop, Enqueue, Addressed, Update, Read, Write, Finish, Started;
    var s0 := s.(lines := s.lines.(status := false));
    var s1 := if op.start then Started(s0) else s0;
    assert s1.lines == s0.lines by { StartLines(s0); }
    PartEffects(s1, [], false);
    var s2 := if op.write then Write(s1) else s1;
    PartEffects(s2, op.answer, false);
    var s3 := if op.read then Read(s2, op.answer) else s2;
    PartEffects(s3, [], op.stop);
  }

  lemma StartLines(s: State)
    ensures Started(s).lines == s.lines
  {
    hide Start, Addressed;
  }

  function Step(s: State, op: Op): State {
    match op
    case WriteTxr(v) => s.(txr := v)
    case WriteControl(on) => s.(enabled := on)
    case Command(_, _, _, _, _) => DoCommand(s, op)
    case ClearPending(events) => s.(lines := Update(s.lines.(pending := s.lines.pending - events)))
    case SetEnable(events) => s.(lines := Update(s.lines.(enable := events)))
    case Timer =>
      if s.shouldSend then s.(timerQueued := false, shouldSend := false, lines := Update(s.lines))
      else s.(timerQueued := false)
    case Reset =>
      s.(enabled := false, txr := 0, rxr := 0, nack := false, fromSlave := [],
         bus := s.bus.(toSlave := []), lines := Update(Lines(false, {}, {}, s.lines.irq)))
  }

  function Run(s: State, ops: seq<Op>): State {
    if ops == [] then s else Step(Run(s, ops[..|ops| - 1]), ops[|ops| - 1])
  }

  // ---- Interrupts ----

  ghost predicate LineFollows(l: Lines) {
    l.irq <==> exists e :: e in l.pending && e in l.enable
  }

  lemma UpdateFollows(l: Lines)
    ensures LineFollows(Update(l))
  {
    var t := Update(l);
    if t.irq { var e :| e in t.pending * t.enable; }
    if e :| e in t.pending && e in t.enable { assert e in t.pending * t.enable; }
  }

  lemma StepFollows(s: State, op: Op)
    requires LineFollows(s.lines)
    ensures LineFollows(Step(s, op).lines)
  {
    hide DoCommand, Update;
    if op.Command? {
      CommandLines(s, op);
      var l0 := s.lines.(status := false);
      UpdateFollows(l0);
      UpdateFollows(l0.(status := true));
      UpdateFollows(Update(l0.(status := true)));
    } else {
      UpdateFollows(s.lines);
      if op.ClearPending? { UpdateFollows(s.lines.(pending := s.lines.pending - op.events)); }
      if op.SetEnable? { UpdateFollows(s.lines.(enable := op.events)); }
      UpdateFollows(Lines(false, {}, {}, s.lines.irq));
    }
  }

  /** In every run, resets included, the line is the disjunction of pending and enabled events. */
  lemma {:induction false} LineAlwaysFollows(s: State, ops: seq<Op>)
    requires LineFollows(s.lines)
    ensures LineFollows(Run(s, ops).lines)
  {
    hide LineFollows, Step;
    if ops != [] {
      LineAlwaysFollows(s, ops[..|ops| - 1]);
      StepFollows(Run(s, ops[..|ops| - 1]), ops[|ops| - 1]);
    }
  }

  /**
   The latches are always settled: evaluating the interrupts once more changes nothing. So it does not matter
   that a register write evaluates them only if it changes a bit.
   */
  lemma {:induction false} AlwaysSettled(s: State, ops: seq<Op>)
    requires Update(s.lines) == s.lines
    ensures Update(Run(s, ops).lines) == Run(s, ops).lines
  {
    hide Step, Update;
    if ops != [] {
      AlwaysSettled(s, ops[..|ops| - 1]);
      StepSettled(Run(s, ops[..|ops| - 1]), ops[|ops| - 1]);
    }
  }

  lemma UpdateSettles(l: Lines)
    ensures Update(Update(l)) == Update(l)
    ensures Update(l) == l ==> Update(l.(status := false)) == l.(status := false)
  {
  }

  lemma StepSettled(s: State, op: Op)
    requires Update(s.lines) == s.lines
    ensures Update(Step(s, op).lines) == Step(s, op).lines
  {
    hide DoCommand, Update;
    UpdateSettles(s.lines);
    if op.Command? {
      CommandLines(s, op);
      UpdateSettles(s.lines.(status := true));
    }
    if op.ClearPending? { UpdateSettles(s.lines.(pending := s.lines.pending - op.events)); }
    if op.SetEnable? { UpdateSettles(s.lines.(enable := op.events)); }
    UpdateSettles(Lines(false, {}, {}, s.lines.irq));
  }

  /** So the deferred interrupt never changes anything: whatever is to be latched was latched at once. */
  lemma TimerIsIdle(slaves: set<nat>, ops: seq<Op>)
    ensures var s := Run(Initial(slaves), ops);
            Step(s, Timer).lines == s.lines && Step(s, Timer).bus == s.bus
  {
    hide Run, Update;
    UpdateNothing();
    AlwaysSettled(Initial(slaves), ops);
  }

  lemma UpdateNothing()
    ensures Update(Lines(false, {}, {}, false)) == Lines(false, {}, {}, false)
  {
  }

  // ---- Reading ----

  /** A command that reads, and nothing else. */
  function ReadCommand(answer: seq<byte>): Op {
    Command(false, false, true, false, answer)
  }

  /** What the receive register shows after each of a series of reads. */
  function Received(s: State, answers: seq<seq<byte>>): seq<byte>
    decreases |answers|
  {
    if answers == [] then [] else
    var t := Step(s, ReadCommand(answers[0]));
    [t.rxr] + Received(t, answers[1..])
  }

  function AfterReads(s: State, answers: seq<seq<byte>>): State
    decreases |answers|
  {
    if answers == [] then s else AfterReads(Step(s, ReadCommand(answers[0])), answers[1..])
  }

  function Joined(answers: seq<seq<byte>>): seq<byte> {
    if answers == [] then [] else answers[0] + Joined(answers[1..])
  }

  lemma ReadStep(s: State, answer: seq<byte>)
    requires s.enabled && s.bus.selected.Some? && answer != []
    ensures var t := Step(s, ReadCommand(answer));
            t.enabled && t.bus.selected == s.bus.selected && [t.rxr] + t.fromSlave == s.fromSlave + answer
  {
    hide Update;
    var all := s.fromSlave + answer;
    assert [all[0]] + all[1..] == all;
  }

  /** Reads in a row give the slave's bytes in order: those seen, and then those still queued. */
  lemma {:induction false} ReadsInOrder(s: State, answers: seq<seq<byte>>)
    requires s.enabled && s.bus.selected.Some? && forall a :: a in answers ==> a != []
    ensures Received(s, answers) + AfterReads(s, answers).fromSlave == s.fromSlave + Joined(answers)
    decreases |answers|
  {
    hide Step;
    if answers == [] {
      assert s.fromSlave + [] == s.fromSlave;
    } else {
      var t := Step(s, ReadCommand(answers[0]));
      assert answers[0] in answers && forall a :: a in answers[1..] ==> a in answers;
      ReadStep(s, answers[0]);
      ReadsInOrder(t, answers[1..]);
      var r := Received(t, answers[1..]) + AfterReads(t, answers[1..]).fromSlave;
      assert [t.rxr] + r == [t.rxr] + t.fromSlave + Joined(answers[1..]);
      assert s.fromSlave + answers[0] + Joined(answers[1..]) == s.fromSlave + Joined(answers);
    }
  }

  // ---- Acknowledgement ----

  /** In every run without reset the flag tells whether the last START found a slave. */
  lemma {:induction false} NackTells(slaves: set<nat>, ops: seq<Op>)
    requires forall op :: op in ops ==> !op.Reset?
    ensures var s := Run(Initial(slaves), ops);
            s.bus.starts != [] ==> (s.nack <==> s.bus.selected.None?)
  {
    if ops != [] {
      hide Step, Run;
      var n := |ops| - 1;
      NackTells(slaves, ops[..n]);
      RunLast(Initial(slaves), ops);
      StepNack(Run(Initial(slaves), ops[..n]), ops[n]);
    }
  }

  lemma StepNack(s: State, op: Op)
    requires !op.Reset? && (s.bus.starts != [] ==> (s.nack <==> s.bus.selected.None?))
    ensures var t := Step(s, op); t.bus.starts != [] ==> (t.nack <==> t.bus.selected.None?)
  {
    hide DoCommand, Update;
    if op.Command? { CommandNack(s, op); }
  }

  lemma CommandNack(s: State, op: Op)
    requires op.Command? && (s.bus.starts != [] ==> (s.nack <==> s.bus.selected.None?))
    ensures var t := DoCommand(s, op); t.bus.starts != [] ==> (t.nack <==> t.bus.selected.None?)
  {
    hide Stop, Enqueue, Start, Addressed, Update, Read, Write, Finish, Started;
    var s0 := s.(lines := s.lines.(status := false));
    var s1 := if op.start then Started(s0) else s0;
    StartedNack(s0);
    KeepsNack(s1, [], false);
    var s2 := if op.write then Write(s1) else s1;
    KeepsNack(s2, op.answer, false);
    var s3 := if op.read then Read(s2, op.answer) else s2;
    KeepsNack(s3, [], op.stop);
  }

  lemma StartedNack(s: State)
    ensures Started(s).nack == Started(s).bus.selected.None?
  {
    hide Send, Addressed, TellFinished;
  }

  lemma KeepsNack(s: State, answer: seq<byte>, stop: bool)
    ensures SameNack(s, Write(s)) && SameNack(s, Read(s, answer)) && SameNack(s, Finish(s, stop))
  {
    hide Update;
  }

  /** The last START and the flag are as they were. */
  ghost predicate SameNack(s: State, t: State) {
    t.nack == s.nack && t.bus.starts == s.bus.starts && t.bus.selected == s.bus.selected
  }

  // ---- Bytes ----

  function Tagged(bytes: seq<byte>, slave: Option<nat>, start: nat): (d: seq<Item>)
    ensures |d| == |bytes|
    ensures forall i :: 0 <= i < |bytes| ==> d[i] == Item(bytes[i], slave, start)
  {
    seq(|bytes|, i requires 0 <= i < |bytes| => Item(bytes[i], slave, start))
  }

  /** The bytes given to slaves, in order. */
  function Delivered(calls: seq<Call>): (d: seq<Item>)
    ensures forall i :: 0 <= i < |d| ==> d[i].slave.Some?
  {
    if calls == [] then [] else
    Delivered(calls[..|calls| - 1]) +
    match calls[|calls| - 1] {
      case Wrote(start, slave, bytes) => Tagged(bytes, Some(slave), start)
      case Finished(_, _) => []
    }
  }

  lemma DeliveredNext(calls: seq<Call>, c: Call)
    ensures Delivered(calls + [c]) ==
            Delivered(calls) + if c.Wrote? then Tagged(c.bytes, Some(c.slave), c.start) else []
  {
    assert (calls + [c])[..|calls|] == calls;
  }

  /** Delivered bytes, then the waiting ones as they would be delivered. */
  function Trace(b: Bus): seq<Item> {
    Delivered(b.calls) + Tagged(b.toSlave, b.selected, |b.starts|)
  }

  /** The same byte, and if it was queued for a slave, given to that slave under the same START. */
  ghost predicate Matches(q: Item, t: Item) {
    q.value == t.value && (q.slave.None? || q == t)
  }

  /** Every byte queued is delivered or waiting, in order, and a byte queued for a slave goes there. */
  ghost predicate Sound(b: Bus) {
    && |Trace(b)| == |b.queued|
    && (forall i :: 0 <= i < |b.queued| ==> Matches(b.queued[i], Trace(b)[i]))
    && (!b.inProgress && b.selected.Some? ==> b.toSlave == [])
  }

  lemma SendKeepsTrace(b: Bus)
    ensures Trace(Send(b)) == Trace(b) && Send(b).queued == b.queued
    ensures b.selected.Some? ==> Send(b).toSlave == []
  {
    hide Delivered;
    if b.toSlave != [] && b.selected.Some? {
      DeliveredNext(b.calls, Wrote(|b.starts|, b.selected.value, b.toSlave));
    }
  }

  lemma TellKeepsTrace(b: Bus)
    ensures Trace(TellFinished(b)) == Trace(b)
  {
    hide Delivered;
    if b.selected.Some? { DeliveredNext(b.calls, Finished(|b.starts|, b.selected.value)); }
  }

  lemma SendSound(b: Bus)
    requires Sound(b)
    ensures Sound(Send(b)) && Sound(TellFinished(b)) && Sound(Stop(b))
  {
    hide Trace, Matches;
    SendKeepsTrace(b);
    TellKeepsTrace(b);
    SendKeepsTrace(TellFinished(b));
    var c := Send(TellFinished(b));
    SameTrace(c, c.(inProgress := false));
  }

  lemma SameTrace(b: Bus, c: Bus)
    requires b.calls == c.calls && b.toSlave == c.toSlave && b.selected == c.selected && b.starts == c.starts
    ensures Trace(b) == Trace(c)
  {
  }

  lemma StartSound(b: Bus, slave: Option<nat>)
    requires Sound(b)
    ensures Sound(Start(b, slave))
  {
    hide Delivered;
    var c := if b.inProgress then Send(b) else b.(inProgress := true);
    if b.inProgress { SendSound(b); SendKeepsTrace(b); }
    var e := TellFinished(c);
    TellKeepsTrace(c);
    var d := Start(b, slave);
    forall i | 0 <= i < |d.queued|
      ensures Matches(d.queued[i], Trace(d)[i])
    {
      assert Matches(c.queued[i], Trace(e)[i]);
    }
  }

  lemma EnqueueSound(b: Bus, v: byte)
    requires Sound(b)
    ensures Sound(Enqueue(b, v))
  {
    hide Delivered;
    if b.inProgress {
      var c := Enqueue(b, v);
      assert Trace(c) == Trace(b) + [Item(v, b.selected, |b.starts|)];
    }
  }

  lemma StepSound(s: State, op: Op)
    requires Sound(s.bus) && !op.Reset?
    ensures Sound(Step(s, op).bus)
  {
    hide Sound, Start, Stop, Enqueue, Update, DoCommand;
    if op.Command? {
      CommandBus(s, op);
      StartSound(s.bus, Addressed(s));
      var b1 := if op.start then Start(s.bus, Addressed(s)) else s.bus;
      EnqueueSound(b1, s.txr);
      SendSound(if op.write then Enqueue(b1, s.txr) else b1);
    }
  }

  /** In every run without reset. */
  lemma {:induction false} RunSound(s: State, ops: seq<Op>)
    requires Sound(s.bus) && forall op :: op in ops ==> !op.Reset?
    ensures Sound(Run(s, ops).bus)
  {
    hide Sound, Step;
    if ops != [] {
      RunSound(s, ops[..|ops| - 1]);
      StepSound(Run(s, ops[..|ops| - 1]), ops[|ops| - 1]);
    }
  }

  // ---- Bytes queued with no slave selected ----

  /** A write that is accepted although no slave is selected. */
  predicate StrayWrite(s: State, op: Op) {
    op.Command? && op.write && !op.start && s.enabled && s.bus.inProgress && s.bus.selected.None?
  }

  /** A command that hands over whatever is waiting: a repeated START, or STOP, with a slave selected. */
  predicate HandsOver(s: State, op: Op) {
    && op.Command? && s.enabled
    && (|| (op.start && s.bus.inProgress && s.bus.selected.Some?)
        || (op.stop && if op.start then Addressed(s).Some? else s.bus.inProgress && s.bus.selected.Some?))
  }

  /** A byte queued for no slave is among those no longer waiting. */
  ghost predicate StrayDelivered(b: Bus) {
    exists i :: 0 <= i < |b.queued| - |b.toSlave| && b.queued[i].slave.None?
  }

  ghost predicate StrayWaiting(b: Bus) {
    exists i :: 0 <= |b.queued| - |b.toSlave| <= i < |b.queued| && b.queued[i].slave.None?
  }

  lemma SendStray(b: Bus)
    requires |b.toSlave| <= |b.queued|
    ensures var c := Send(b); |c.toSlave| <= |c.queued|
    ensures StrayDelivered(Send(b)) <==> StrayDelivered(b) || (StrayWaiting(b) && b.selected.Some?)
    ensures StrayWaiting(Send(b)) <==> StrayWaiting(b) && b.selected.None?
  {
    var c := Send(b);
    if i :| 0 <= |b.queued| - |b.toSlave| <= i < |b.queued| && b.queued[i].slave.None? {
      assert c.queued[i].slave.None?;
    }
    if i :| 0 <= i < |b.queued| - |b.toSlave| && b.queued[i].slave.None? {
      assert c.queued[i].slave.None?;
    }
  }

  lemma EnqueueStray(b: Bus, v: byte)
    requires |b.toSlave| <= |b.queued|
    ensures var c := Enqueue(b, v); |c.toSlave| <= |c.queued|
    ensures StrayDelivered(Enqueue(b, v)) <==> StrayDelivered(b)
    ensures StrayWaiting(Enqueue(b, v)) <==> StrayWaiting(b) || (b.inProgress && b.selected.None?)
  {
    var c := Enqueue(b, v);
    assert |c.queued| - |c.toSlave| == |b.queued| - |b.toSlave|;
    if b.inProgress {
      var n := |b.queued|;
      assert c.queued[n].slave == b.selected;
      if i :| 0 <= |b.queued| - |b.toSlave| <= i < n && b.queued[i].slave.None? { assert c.queued[i].slave.None?; }
      if i :| 0 <= i < n - |b.toSlave| && b.queued[i].slave.None? { assert c.queued[i].slave.None?; }
      if i :| 0 <= |c.queued| - |c.toSlave| <= i < |c.queued| && c.queued[i].slave.None? {
        assert i < n ==> b.queued[i].slave.None?;
      }
    }
  }

  lemma SameStray(b: Bus, c: Bus)
    requires b.queued == c.queued && b.toSlave == c.toSlave
    ensures StrayDelivered(b) == StrayDelivered(c) && StrayWaiting(b) == StrayWaiting(c)
  {
  }

  lemma StartStray(b: Bus, slave: Option<nat>)
    requires |b.toSlave| <= |b.queued|
    ensures var c := Start(b, slave); |c.toSlave| <= |c.queued|
    ensures var c, over := Start(b, slave), b.inProgress && b.selected.Some?;
            && (StrayDelivered(c) <==> StrayDelivered(b) || (StrayWaiting(b) && over))
            && (StrayWaiting(c) <==> StrayWaiting(b) && !over)
  {
    hide StrayDelivered, StrayWaiting;
    SendStray(b);
    SameStray(if b.inProgress then Send(b) else b, Start(b, slave));
  }

  lemma StopStray(b: Bus)
    requires |b.toSlave| <= |b.queued|
    ensures var c := Stop(b); |c.toSlave| <= |c.queued|
    ensures var c, over := Stop(b), b.inProgress && b.selected.Some?;
            && (StrayDelivered(c) <==> StrayDelivered(b) || (StrayWaiting(b) && over))
            && (StrayWaiting(c) <==> StrayWaiting(b) && !over)
  {
    hide StrayDelivered, StrayWaiting;
    var c := TellFinished(b);
    SameStray(b, c);
    SendStray(c);
    SameStray(if b.inProgress then Send(c) else c, Stop(b));
  }

  lemma StepStray(s: State, op: Op)
    requires |s.bus.toSlave| <= |s.bus.queued| && !op.Reset?
    ensures var b, c := s.bus, Step(s, op).bus;
            && |c.toSlave| <= |c.queued|
            && (StrayDelivered(c) <==> StrayDelivered(b) || (StrayWaiting(b) && HandsOver(s, op)))
            && (StrayWaiting(c) <==> (StrayWaiting(b) && !HandsOver(s, op)) || StrayWrite(s, op))
  {
    hide StrayDelivered, StrayWaiting, Start, Stop, Enqueue, Update, DoCommand, Addressed;
    if op.Command? {
      CommandBus(s, op);
      var b1 := if op.start then Start(s.bus, Addressed(s)) else s.bus;
      StartStray(s.bus, Addressed(s));
      var b2 := if op.write then Enqueue(b1, s.txr) else b1;
      EnqueueStray(b1, s.txr);
      StopStray(b2);
      PartFlags(s.bus, Addressed(s), s.txr);
      PartFlags(b1, None, s.txr);
    }
  }

  lemma PartFlags(b: Bus, slave: Option<nat>, v: byte)
    ensures Start(b, slave).inProgress && Start(b, slave).selected == slave
    ensures Enqueue(b, v).inProgress == b.inProgress && Enqueue(b, v).selected == b.selected
  {
  }

  ghost predicate StrayAt(s: State, ops: seq<Op>, i: nat) {
    i < |ops| && StrayWrite(Run(s, ops[..i]), ops[i])
  }

  ghost predicate HandsOverAt(s: State, ops: seq<Op>, j: nat) {
    j < |ops| && HandsOver(Run(s, ops[..j]), ops[j])
  }

  /** Some operation is a stray write. */
  ghost predicate StrayWritten(s: State, ops: seq<Op>) {
    exists i: nat :: StrayAt(s, ops, i)
  }

  /** Some operation is a stray write, and a later one hands over what is waiting. */
  ghost predicate StraySent(s: State, ops: seq<Op>) {
    exists i: nat, j: nat :: i < j && StrayAt(s, ops, i) && HandsOverAt(s, ops, j)
  }

  lemma AtNext(s: State, ops: seq<Op>, op: Op, i: nat)
    ensures StrayAt(s, ops + [op], i) <==> if i == |ops| then StrayWrite(Run(s, ops), op) else StrayAt(s, ops, i)
    ensures HandsOverAt(s, ops + [op], i) <==> if i == |ops| then HandsOver(Run(s, ops), op) else HandsOverAt(s, ops, i)
  {
    hide Run, StrayWrite, HandsOver;
    if i <= |ops| { assert (ops + [op])[..i] == ops[..i]; }
    assert ops[..|ops|] == ops;
  }

  lemma StrayNext(s: State, ops: seq<Op>, op: Op)
    ensures StrayWritten(s, ops + [op]) <==> StrayWritten(s, ops) || StrayWrite(Run(s, ops), op)
    ensures StraySent(s, ops + [op]) <==> StraySent(s, ops) || (StrayWritten(s, ops) && HandsOver(Run(s, ops), op))
  {
    var n, all := |ops|, ops + [op];
    forall i: nat
      ensures StrayAt(s, all, i) <==> if i == n then StrayWrite(Run(s, ops), op) else StrayAt(s, ops, i)
      ensures HandsOverAt(s, all, i) <==> if i == n then HandsOver(Run(s, ops), op) else HandsOverAt(s, ops, i)
    {
      AtNext(s, ops, op, i);
    }
    NotYet(s, ops);
    hide StrayAt, HandsOverAt, StrayWrite, HandsOver, Run;
    if i: nat :| StrayAt(s, ops, i) { assert StrayAt(s, all, i); }
    if i: nat, j: nat :| i < j && StrayAt(s, ops, i) && HandsOverAt(s, ops, j) {
      assert StrayAt(s, all, i) && HandsOverAt(s, all, j);
    }
    if StrayWrite(Run(s, ops), op) { assert StrayAt(s, all, n); }
    if HandsOver(Run(s, ops), op) { assert HandsOverAt(s, all, n); }
  }

  lemma NotYet(s: State, ops: seq<Op>)
    ensures forall i: nat :: StrayAt(s, ops, i) || HandsOverAt(s, ops, i) ==> i < |ops|
  {
  }

  lemma NothingStray(s: State)
    requires s.bus.queued == []
    ensures Run(s, []) == s && !StraySent(s, []) && !StrayWritten(s, [])
    ensures !StrayDelivered(s.bus) && !StrayWaiting(s.bus)
  {
    NotYet(s, []);
  }

  /** Whether a stray byte is delivered, or still waiting, can be told from the operations. */
  lemma {:induction false} RunStray(s: State, ops: seq<Op>)
    requires s.bus.toSlave == [] && s.bus.queued == [] && forall op :: op in ops ==> !op.Reset?
    ensures var b := Run(s, ops).bus;
            && |b.toSlave| <= |b.queued|
            && (StrayDelivered(b) <==> StraySent(s, ops))
            && (StrayDelivered(b) || StrayWaiting(b) <==> StrayWritten(s, ops))
  {
    hide StraySent, StrayWritten, StrayDelivered, StrayWaiting, Step, StrayWrite, HandsOver, Run;
    if ops == [] {
      NothingStray(s);
    } else {
      RunLast(s, ops);
      var n := |ops| - 1;
      var front := ops[..n];
      RunStray(s, front);
      StepStray(Run(s, front), ops[n]);
      StrayNext(s, front, ops[n]);
      assert front + [ops[n]] == ops;
    }
  }

  /**
   Every byte delivered went to the slave, and under the START, it was queued for, if and only if no write that was
   accepted with no slave selected is followed by a command that hands over.
   */
  lemma DeliveredRightIff(slaves: set<nat>, ops: seq<Op>)
    requires forall op :: op in ops ==> !op.Reset?
    ensures var b := Run(Initial(slaves), ops).bus;
            && |Delivered(b.calls)| <= |b.queued|
            && (Delivered(b.calls) == b.queued[..|Delivered(b.calls)|] <==> !StraySent(Initial(slaves), ops))
  {
    hide Run, Delivered, StraySent;
    InitialSound(slaves);
    RunSound(Initial(slaves), ops);
    RunStray(Initial(slaves), ops);
    var b := Run(Initial(slaves), ops).bus;
    var d := Delivered(b.calls);
    assert |d| == |b.queued| - |b.toSlave|;
    forall i | 0 <= i < |d|
      ensures d[i] == b.queued[i] <==> b.queued[i].slave.Some?
    {
      assert Trace(b)[i] == d[i];
      assert Matches(b.queued[i], Trace(b)[i]);
    }
    if forall i :: 0 <= i < |d| ==> b.queued[i].slave.Some? {
      assert d == b.queued[..|d|];
    } else {
      var i :| 0 <= i < |d| && b.queued[i].slave.None?;
      assert b.queued[..|d|][i] != d[i];
    }
  }

  lemma InitialSound(slaves: set<nat>)
    ensures Sound(Initial(slaves).bus)
  {
  }

  // ---- Batches ----

  /**
   Bytes are handed over at most once for each START, in the order of STARTs, to the slave that START selected;
   and for the START of a transfer under way not before it ends.
   */
  ghost predicate Orderly(b: Bus) {
    && b.selected == (if b.starts == [] then None else b.starts[|b.starts| - 1])
    && (b.inProgress ==> b.starts != [])
    && (forall i :: 0 <= i < |b.calls| && b.calls[i].Wrote? ==> Placed(b, b.calls[i]))
    && (forall i, j :: 0 <= i < j < |b.calls| && b.calls[i].Wrote? && b.calls[j].Wrote? ==>
                         b.calls[i].start < b.calls[j].start)
  }

  ghost predicate Placed(b: Bus, c: Call)
    requires c.Wrote?
  {
    && 0 < c.start <= |b.starts| && b.starts[c.start - 1] == Some(c.slave) && c.bytes != []
    && (b.inProgress ==> c.start < |b.starts|)
  }

  /** The transfer under way, if any, ends with its bytes handed over. */
  function Ended(b: Bus): Bus {
    if b.inProgress then Send(b).(inProgress := false) else b
  }

  /** The transfer of one more START. */
  function Begun(b: Bus, slave: Option<nat>): Bus {
    Select(b.(inProgress := true), slave)
  }

  lemma StopAndStart(b: Bus, slave: Option<nat>)
    ensures Stop(b) == Ended(TellFinished(b)) && Start(b, slave) == Begun(TellFinished(Ended(b)), slave)
  {
  }

  /** A call on a slave that keeps the order: for bytes, the last one of the transfer under way. */
  lemma CallOrderly(b: Bus, c: Call, waiting: seq<byte>)
    requires Orderly(b)
    requires c.Wrote? ==> b.inProgress && c.start == |b.starts| && b.selected == Some(c.slave) && c.bytes != []
    ensures Orderly(Bus(b.inProgress && c.Finished?, b.selected, waiting, b.starts, b.queued, b.calls + [c]))
  {
    var d := Bus(b.inProgress && c.Finished?, b.selected, waiting, b.starts, b.queued, b.calls + [c]);
    forall i | 0 <= i < |d.calls| && d.calls[i].Wrote?
      ensures Placed(d, d.calls[i])
      ensures i < |b.calls| ==> b.calls[i] == d.calls[i] && Placed(b, b.calls[i])
    {
      if i < |b.calls| { assert Placed(b, b.calls[i]); }
    }
  }

  lemma SameOrderly(b: Bus, c: Bus)
    requires Orderly(b) && b.selected == c.selected && b.starts == c.starts && b.calls == c.calls
    requires c.inProgress ==> b.inProgress
    ensures Orderly(c)
  {
    forall i | 0 <= i < |c.calls| && c.calls[i].Wrote?
      ensures Placed(c, c.calls[i])
    {
      assert Placed(b, b.calls[i]);
    }
  }

  lemma BegunOrderly(b: Bus, slave: Option<nat>)
    requires Orderly(b)
    ensures Orderly(Begun(b, slave))
  {
    var c := Begun(b, slave);
    forall i | 0 <= i < |c.calls| && c.calls[i].Wrote?
      ensures Placed(c, c.calls[i])
    {
      assert Placed(b, b.calls[i]);
    }
  }

  lemma EndedOrderly(b: Bus)
    requires Orderly(b)
    ensures Orderly(Ended(b)) && Orderly(TellFinished(b))
    ensures b.inProgress ==> b.starts != [] && b.selected == b.starts[|b.starts| - 1]
  {
    SameOrderly(b, b.(inProgress := false));
    if b.selected.Some? {
      CallOrderly(b, Finished(|b.starts|, b.selected.value), b.toSlave);
      if b.inProgress && b.toSlave != [] { CallOrderly(b, Wrote(|b.starts|, b.selected.value, b.toSlave), []); }
    }
  }

  lemma PartsOrderly(b: Bus, slave: Option<nat>, v: byte)
    requires Orderly(b)
    ensures Orderly(Start(b, slave)) && Orderly(Enqueue(b, v)) && Orderly(Stop(b))
  {
    StopAndStart(b, slave);
    SameOrderly(b, Enqueue(b, v));
    hide Orderly, Ended, TellFinished, Begun, Start, Stop;
    EndedOrderly(b);
    EndedOrderly(TellFinished(b));
    EndedOrderly(Ended(b));
    BegunOrderly(TellFinished(Ended(b)), slave);
  }

  lemma StepOrderly(s: State, op: Op)
    requires Orderly(s.bus)
    ensures Orderly(Step(s, op).bus)
  {
    hide Orderly, Start, Stop, Enqueue, Update, DoCommand;
    if op.Command? {
      CommandBus(s, op);
      PartsOrderly(s.bus, Addressed(s), s.txr);
      var b1 := if op.start then Start(s.bus, Addressed(s)) else s.bus;
      PartsOrderly(b1, None, s.txr);
      PartsOrderly(if op.write then Enqueue(b1, s.txr) else b1, None, s.txr);
    }
    if op.Reset? { SameOrderly(s.bus, s.bus.(toSlave := [])); }
  }

  /** In every run, resets included. */
  lemma {:induction false} RunOrderly(s: State, ops: seq<Op>)
    requires Orderly(s.bus)
    ensures Orderly(Run(s, ops).bus)
  {
    hide Orderly, Step;
    if ops != [] {
      RunOrderly(s, ops[..|ops| - 1]);
      StepOrderly(Run(s, ops[..|ops| - 1]), ops[|ops| - 1]);
    }
  }

  // ---- Told of the end, and then given the bytes ----

  /** Some slave is told that the transmission of a START is over, and later given bytes of that START. */
  ghost predicate ToldFirst(calls: seq<Call>) {
    exists i, j :: 0 <= i < j < |calls| && EndThenBytes(calls[i], calls[j])
  }

  ghost predicate EndThenBytes(c: Call, d: Call) {
    c.Finished? && d.Wrote? && c.start == d.start
  }

  /** No call belongs to a START still to come, and no end was told of the one under way. */
  ghost predicate Untold(b: Bus) {
    forall i :: 0 <= i < |b.calls| ==>
                  && b.calls[i].start <= |b.starts|
                  && (b.inProgress && b.calls[i].Finished? ==> b.calls[i].start < |b.starts|)
  }

  /** A STOP that hands over bytes: some are waiting, or come with the same command. */
  predicate EndsWithBytes(s: State, op: Op) {
    && op.Command? && s.enabled && op.stop
    && if op.start
       then Addressed(s).Some? && (op.write || (s.bus.toSlave != [] && !(s.bus.inProgress && s.bus.selected.Some?)))
       else s.bus.inProgress && s.bus.selected.Some? && (op.write || s.bus.toSlave != [])
  }

  /** One more call puts an end before bytes only if it is bytes, and their end was told. */
  lemma ToldNext(calls: seq<Call>, c: Call)
    ensures ToldFirst(calls + [c]) <==>
            ToldFirst(calls) || exists i :: 0 <= i < |calls| && EndThenBytes(calls[i], c)
  {
    hide EndThenBytes;
    var all, n := calls + [c], |calls|;
    assert forall i :: 0 <= i < n ==> all[i] == calls[i];
    if i, j :| 0 <= i < j < n && EndThenBytes(calls[i], calls[j]) { assert EndThenBytes(all[i], all[j]); }
    if i :| 0 <= i < n && EndThenBytes(calls[i], c) { assert EndThenBytes(all[i], all[n]); }
    if i, j :| 0 <= i < j < |all| && EndThenBytes(all[i], all[j]) {
      assert EndThenBytes(calls[i], all[j]);
      assert j < n ==> EndThenBytes(calls[i], calls[j]);
    }
  }

  lemma TellTold(b: Bus)
    ensures ToldFirst(TellFinished(b).calls) <==> ToldFirst(b.calls)
  {
    hide ToldFirst;
    if b.selected.Some? { ToldNext(b.calls, Finished(|b.starts|, b.selected.value)); }
  }

  /** Bytes of a START whose end was not told. */
  lemma SendUntold(b: Bus)
    requires Untold(b) && b.inProgress
    ensures ToldFirst(Send(b).calls) <==> ToldFirst(b.calls)
    ensures var calls := Send(b).calls;
            forall i :: 0 <= i < |calls| ==>
                          calls[i].start <= |b.starts| && (calls[i].Finished? ==> calls[i].start < |b.starts|)
  {
    hide ToldFirst;
    if b.selected.Some? && b.toSlave != [] {
      var w := Wrote(|b.starts|, b.selected.value, b.toSlave);
      ToldNext(b.calls, w);
      assert forall i :: 0 <= i < |b.calls| ==> !EndThenBytes(b.calls[i], w);
    }
  }

  lemma StartTold(b: Bus, slave: Option<nat>)
    requires Untold(b)
    ensures Untold(Start(b, slave))
    ensures ToldFirst(Start(b, slave).calls) <==> ToldFirst(b.calls)
  {
    hide ToldFirst;
    var c := if b.inProgress then Send(b) else b.(inProgress := true);
    if b.inProgress { SendUntold(b); }
    TellTold(c);
  }

  lemma StopTold(b: Bus)
    requires Untold(b)
    ensures Untold(Stop(b))
    ensures ToldFirst(Stop(b).calls) <==>
            ToldFirst(b.calls) || (b.inProgress && b.selected.Some? && b.toSlave != [])
  {
    hide ToldFirst;
    TellTold(b);
    if b.inProgress && b.selected.Some? && b.toSlave != [] {
      var c, w := TellFinished(b), Wrote(|b.starts|, b.selected.value, b.toSlave);
      ToldNext(c.calls, w);
      assert EndThenBytes(c.calls[|b.calls|], w);
    }
  }

  lemma StepTold(s: State, op: Op)
    requires Untold(s.bus)
    ensures Untold(Step(s, op).bus)
    ensures ToldFirst(Step(s, op).bus.calls) <==> ToldFirst(s.bus.calls) || EndsWithBytes(s, op)
  {
    hide ToldFirst, Untold, Start, Stop, Enqueue, Update, DoCommand, Addressed;
    if op.Command? {
      CommandBus(s, op);
      StartTold(s.bus, Addressed(s));
      StartWaiting(s.bus, Addressed(s));
      var b1 := if op.start then Start(s.bus, Addressed(s)) else s.bus;
      var b2 := if op.write then Enqueue(b1, s.txr) else b1;
      EnqueueTold(b1, s.txr);
      StopTold(b2);
    }
    if op.Reset? { ClearedTold(s.bus); }
  }

  lemma StartWaiting(b: Bus, slave: Option<nat>)
    ensures var c := Start(b, slave);
            && c.inProgress && c.selected == slave
            && c.toSlave == if b.inProgress && b.selected.Some? then [] else b.toSlave
  {
  }

  lemma EnqueueTold(b: Bus, v: byte)
    requires Untold(b)
    ensures var c := Enqueue(b, v);
            && Untold(c) && c.calls == b.calls && c.inProgress == b.inProgress && c.selected == b.selected
            && (c.toSlave != [] <==> b.inProgress || b.toSlave != [])
  {
  }

  lemma ClearedTold(b: Bus)
    requires Untold(b)
    ensures Untold(b.(toSlave := []))
  {
  }

  ghost predicate EndsAt(s: State, ops: seq<Op>, k: nat) {
    k < |ops| && EndsWithBytes(Run(s, ops[..k]), ops[k])
  }

  lemma EndsNext(s: State, ops: seq<Op>)
    requires ops != []
    ensures var n := |ops| - 1;
            (exists k: nat :: EndsAt(s, ops, k)) <==>
            (exists k: nat :: EndsAt(s, ops[..n], k)) || EndsWithBytes(Run(s, ops[..n]), ops[n])
  {
    hide Run, EndsWithBytes;
    var n := |ops| - 1;
    var front := ops[..n];
    forall k: nat | k < n
      ensures EndsAt(s, ops, k) <==> EndsAt(s, front, k)
    {
      assert front[..k] == ops[..k] && front[k] == ops[k];
    }
    if k: nat :| EndsAt(s, front, k) { assert EndsAt(s, ops, k); }
    if EndsWithBytes(Run(s, front), ops[n]) { assert EndsAt(s, ops, n); }
  }

  lemma {:induction false} RunTold(s: State, ops: seq<Op>)
    requires s.bus.calls == []
    ensures Untold(Run(s, ops).bus)
    ensures ToldFirst(Run(s, ops).bus.calls) <==> exists k: nat :: EndsAt(s, ops, k)
  {
    if ops != [] {
      hide ToldFirst, Untold, Step, EndsAt, EndsWithBytes, Run;
      var n := |ops| - 1;
      RunTold(s, ops[..n]);
      RunLast(s, ops);
      StepTold(Run(s, ops[..n]), ops[n]);
      EndsNext(s, ops);
    }
  }

  /**
   In every run, resets included: a slave is told of the end of a transmission before it is given its bytes if and
   only if some STOP hands over bytes. Bytes handed over by a repeated START always come first.
   */
  lemma ToldFirstIff(slaves: set<nat>, ops: seq<Op>)
    ensures ToldFirst(Run(Initial(slaves), ops).bus.calls) <==>
            exists k: nat :: k < |ops| && EndsWithBytes(Run(Initial(slaves), ops[..k]), ops[k])
  {
    hide Run, ToldFirst, EndsWithBytes;
    var s := Initial(slaves);
    RunTold(s, ops);
    if k: nat :| k < |ops| && EndsWithBytes(Run(s, ops[..k]), ops[k]) { assert EndsAt(s, ops, k); }
  }

  // ---- Runs whose STARTs all name registered slaves ----

  ghost predicate Answered(s: State, op: Op) {
    op.Command? && op.start && s.enabled ==> Addressed(s).Some?
  }

  ghost predicate AllAnswered(s: State, ops: seq<Op>) {
    forall i :: 0 <= i < |ops| ==> Answered(Run(s, ops[..i]), ops[i])
  }

  /** The bytes queued under one START. */
  function Under(queued: seq<Item>, start: nat): seq<byte> {
    if queued == [] then [] else
    var last := queued[|queued| - 1];
    Under(queued[..|queued| - 1], start) + if last.start == start then [last.value] else []
  }

  lemma UnderNext(queued: seq<Item>, q: Item, start: nat)
    ensures Under(queued + [q], start) == Under(queued, start) + if q.start == start then [q.value] else []
  {
    assert (queued + [q])[..|queued|] == queued;
  }

  lemma {:induction false} UnderNone(queued: seq<Item>, start: nat)
    requires forall q :: q in queued ==> q.start < start
    ensures Under(queued, start) == []
  {
    if queued != [] { UnderNone(queued[..|queued| - 1], start); }
  }

  ghost predicate HasBatch(calls: seq<Call>, start: nat) {
    exists i :: 0 <= i < |calls| && calls[i].Wrote? && calls[i].start == start
  }

  /**
   What is handed over for a START is all that was queued under it; of a START that is over nothing is kept back;
   and nothing waits but what was queued under the START of the transfer under way.
   */
  ghost predicate Whole(b: Bus) {
    && Orderly(b)
    && (forall slave :: slave in b.starts ==> slave.Some?)
    && b.toSlave == (if b.inProgress then Under(b.queued, |b.starts|) else [])
    && (forall q :: q in b.queued ==> 0 < q.start <= |b.starts| && q.slave == b.starts[q.start - 1])
    && (forall i :: 0 <= i < |b.calls| && b.calls[i].Wrote? ==>
                      b.calls[i].bytes == Under(b.queued, b.calls[i].start))
    && (forall n :: 0 < n <= |b.starts| && Over(b, n) && Under(b.queued, n) != [] ==> HasBatch(b.calls, n))
  }

  ghost predicate Over(b: Bus, n: nat) {
    n < |b.starts| || !b.inProgress
  }

  /** One more call on a slave. */
  lemma BatchStays(calls: seq<Call>, c: Call, n: nat)
    ensures HasBatch(calls, n) || (c.Wrote? && c.start == n) ==> HasBatch(calls + [c], n)
  {
    var all := calls + [c];
    if i :| 0 <= i < |calls| && calls[i].Wrote? && calls[i].start == n { assert all[i] == calls[i]; }
    assert all[|calls|] == c;
  }

  lemma TellWhole(b: Bus)
    requires Whole(b)
    ensures Whole(TellFinished(b))
  {
    hide Under, HasBatch, Orderly;
    EndedOrderly(b);
    var c := TellFinished(b);
    if b.selected.Some? {
      forall n | 0 < n <= |c.starts| && Over(c, n) && Under(c.queued, n) != []
        ensures HasBatch(c.calls, n)
      {
        assert Over(b, n);
        BatchStays(b.calls, Finished(|b.starts|, b.selected.value), n);
      }
    }
  }

  lemma EndedWhole(b: Bus)
    requires Whole(b)
    ensures Whole(Ended(b)) && !Ended(b).inProgress
  {
    hide Under, HasBatch, Orderly;
    EndedOrderly(b);
    if b.inProgress {
      var c, n0 := Ended(b), |b.starts|;
      assert b.selected in b.starts;
      forall n | 0 < n <= |c.starts| && Over(c, n) && Under(c.queued, n) != []
        ensures HasBatch(c.calls, n)
      {
        if b.toSlave != [] { BatchStays(b.calls, Wrote(n0, b.selected.value, b.toSlave), n); }
        assert n < n0 ==> Over(b, n);
      }
    }
  }

  lemma BegunWhole(b: Bus, slave: nat)
    requires Whole(b) && !b.inProgress
    ensures Whole(Begun(b, Some(slave)))
  {
    hide Under, HasBatch, Orderly;
    var c := Begun(b, Some(slave));
    BegunOrderly(b, Some(slave));
    UnderNone(b.queued, |c.starts|);
    assert forall n :: 0 < n <= |b.starts| ==> Over(b, n);
  }

  lemma StopWhole(b: Bus)
    requires Whole(b)
    ensures Whole(Stop(b))
  {
    StopAndStart(b, None);
    hide Whole, Stop, TellFinished, Ended;
    TellWhole(b);
    EndedWhole(TellFinished(b));
  }

  lemma StartWhole(b: Bus, slave: nat)
    requires Whole(b)
    ensures Whole(Start(b, Some(slave)))
  {
    StopAndStart(b, Some(slave));
    hide Whole, Start, TellFinished, Ended;
    EndedWhole(b);
    TellWhole(Ended(b));
    BegunWhole(TellFinished(Ended(b)), slave);
  }

  lemma EnqueueKeeps(b: Bus, c: Bus)
    requires Whole(b) && Orderly(c) && b.inProgress && |c.queued| > 0
    requires c == b.(toSlave := c.toSlave, queued := c.queued)
    requires c.queued == b.queued + [Item(c.queued[|c.queued| - 1].value, b.selected, |b.starts|)]
    requires c.toSlave == b.toSlave + [c.queued[|c.queued| - 1].value]
    requires forall n: nat :: Under(c.queued, n) ==
                              Under(b.queued, n) + if n == |b.starts| then [c.queued[|c.queued| - 1].value] else []
    ensures Whole(c)
  {
    hide Under, HasBatch;
    assert forall i :: 0 <= i < |b.calls| && b.calls[i].Wrote? ==> Placed(b, b.calls[i]);
    assert forall n: nat :: Over(c, n) <==> Over(b, n);
  }

  lemma EnqueueWhole(b: Bus, v: byte)
    requires Whole(b)
    ensures Whole(Enqueue(b, v))
  {
    if b.inProgress {
      var c := Enqueue(b, v);
      var q := Item(v, b.selected, |b.starts|);
      PartsOrderly(b, None, v);
      assert forall i :: 0 <= i < |b.calls| && b.calls[i].Wrote? ==> Placed(b, b.calls[i]);
      forall n: nat
        ensures Under(c.queued, n) == Under(b.queued, n) + if n == |b.starts| then [v] else []
      {
        UnderNext(b.queued, q, n);
      }
      EnqueueKeeps(b, c);
    }
  }

  lemma StepWhole(s: State, op: Op)
    requires Whole(s.bus) && Answered(s, op) && !op.Reset?
    ensures Whole(Step(s, op).bus)
  {
    hide Whole, Start, Stop, Enqueue, Update, DoCommand;
    if op.Command? {
      CommandBus(s, op);
      if s.enabled {
        if op.start { StartWhole(s.bus, Addressed(s).value); }
        var b1 := if op.start then Start(s.bus, Addressed(s)) else s.bus;
        EnqueueWhole(b1, s.txr);
        StopWhole(if op.write then Enqueue(b1, s.txr) else b1);
      }
    }
  }

  lemma {:induction false} RunWhole(s: State, ops: seq<Op>)
    requires Whole(s.bus) && AllAnswered(s, ops) && forall op :: op in ops ==> !op.Reset?
    ensures Whole(Run(s, ops).bus)
  {
    hide Whole, Step, Answered;
    if ops != [] {
      var n := |ops| - 1;
      var front := ops[..n];
      assert AllAnswered(s, front) by {
        forall i | 0 <= i < n
          ensures Answered(Run(s, front[..i]), front[i])
        {
          assert front[..i] == ops[..i] && front[i] == ops[i];
        }
      }
      RunWhole(s, front);
      StepWhole(Run(s, front), ops[n]);
    }
  }

  /**
   If every START names a registered slave: the bytes queued are those delivered, in order, and then those waiting;
   each START has at most one batch, which is all that was queued under it and goes to the slave it selected; and
   outside a transfer nothing waits, and every START under which a byte was queued has its batch.
   */
  lemma EveryBatchArrives(slaves: set<nat>, ops: seq<Op>)
    requires AllAnswered(Initial(slaves), ops) && forall op :: op in ops ==> !op.Reset?
    ensures var b := Run(Initial(slaves), ops).bus;
            && b.queued == Trace(b)
            && (forall i :: 0 <= i < |b.calls| && b.calls[i].Wrote? ==>
                              && 0 < b.calls[i].start <= |b.starts|
                              && Some(b.calls[i].slave) == b.starts[b.calls[i].start - 1]
                              && b.calls[i].bytes == Under(b.queued, b.calls[i].start))
            && (forall i, j :: 0 <= i < j < |b.calls| && b.calls[i].Wrote? && b.calls[j].Wrote? ==>
                                 b.calls[i].start < b.calls[j].start)
            && (!b.inProgress ==>
                  && b.toSlave == []
                  && forall n :: 0 < n <= |b.starts| && Under(b.queued, n) != [] ==> HasBatch(b.calls, n))
  {
    hide Run, AllAnswered, Delivered, Under, HasBatch;
    var s := Initial(slaves);
    InitialSound(slaves);
    InitialWhole(slaves);
    RunSound(s, ops);
    RunWhole(s, ops);
    var b := Run(s, ops).bus;
    assert forall i :: 0 <= i < |b.calls| && b.calls[i].Wrote? ==> Placed(b, b.calls[i]);
    assert !b.inProgress ==> forall n: nat :: Over(b, n);
    NoStray(b);
  }

  lemma NoStray(b: Bus)
    requires Sound(b) && Whole(b)
    ensures b.queued == Trace(b)
  {
    hide Trace, Under, HasBatch;
    forall i | 0 <= i < |b.queued|
      ensures b.queued[i] == Trace(b)[i]
    {
      assert Matches(b.queued[i], Trace(b)[i]);
      var q := b.queued[i];
      assert q in b.queued && b.starts[q.start - 1] in b.starts;
    }
  }

  lemma InitialWhole(slaves: set<nat>)
    ensures Whole(Initial(slaves).bus)
  {
  }

  /** Without the condition a byte can reach a slave it was never queued for. */
  lemma BytesCanStray()
    ensures var ops := [WriteControl(true), WriteTxr(6), Command(true, false, false, false, []),
                        WriteTxr(9), Command(false, false, false, true, []),
                        WriteTxr(4), Command(true, true, false, false, [])];
            var b := Run(Initial({2}), ops).bus;
            b.queued == [Item(9, None, 1)] && b.calls == [Finished(2, 2), Wrote(2, 2, [9])]
  {
    hide Run;
    var s0 := Initial({2});
    var s1 := Step(s0, WriteControl(true));
    var s2 := Step(s1, WriteTxr(6));
    var s3 := Step(s2, Command(true, false, false, false, []));
    var s4 := Step(s3, WriteTxr(9));
    var s5 := Step(s4, Command(false, false, false, true, []));
    var s6 := Step(s5, WriteTxr(4));
    var s7 := Step(s6, Command(true, true, false, false, []));
    assert s6.bus.queued == [Item(9, None, 1)] && s6.bus.toSlave == [9] && s6.bus.calls == [];
    assert |s6.bus.starts| == 1 && s6.bus.inProgress && s6.bus.selected == None;
    assert s7.bus == Stop(Start(s6.bus, Some(2)));
    RunSeven(s0, [WriteControl(true), WriteTxr(6), Command(true, false, false, false, []),
                  WriteTxr(9), Command(false, false, false, true, []),
                  WriteTxr(4), Command(true, true, false, false, [])]);
  }

  lemma RunSeven(s: State, ops: seq<Op>)
    requires |ops| == 7
    ensures Run(s, ops) ==
            Step(Step(Step(Step(Step(Step(Step(s, ops[0]), ops[1]), ops[2]), ops[3]), ops[4]), ops[5]), ops[6])
  {
    hide Step;
    RunNext(s, ops, 0);
    RunNext(s, ops, 1);
    RunNext(s, ops, 2);
    RunNext(s, ops, 3);
    RunNext(s, ops, 4);
    RunNext(s, ops, 5);
    RunNext(s, ops, 6);
    assert ops[..7] == ops;
  }

  lemma RunLast(s: State, ops: seq<Op>)
    requires ops != []
    ensures Run(s, ops) == Step(Run(s, ops[..|ops| - 1]), ops[|ops| - 1])
  {
    hide Step;
  }

  lemma RunNext(s: State, ops: seq<Op>, i: nat)
    requires i < |ops|
    ensures Run(s, ops[..i + 1]) == Step(Run(s, ops[..i]), ops[i])
    ensures Run(s, ops[..0]) == s
  {
    hide Step;
    assert ops[..i + 1][..i] == ops[..i];
  }

  // ---- The implementation ----

  class I2cMaster {
    const slaves: set<nat>
    var enabled: bool
    var transmitBuffer: byte
    var receiveBuffer: byte
    var receivedAckNegated: bool
    var transactionInProgress: bool
    var selectedSlave: Option<nat>
    var dataToSlave: seq<byte>
    var dataFromSlave: seq<byte>
    var i2cIrqStatus: bool
    var pending: set<Event>
    var enable: set<Event>
    var irq: bool
    var timerQueued: bool
    var shouldSendTxRxIrq: bool
    ghost var queued: seq<Item>
    ghost var starts: seq<Option<nat>>
    ghost var calls: seq<Call>

    ghost function BusView(): Bus
      reads this
    {
      Bus(transactionInProgress, selectedSlave, dataToSlave, starts, queued, calls)
    }

    ghost function LinesView(): Lines
      reads this
    {
      Lines(i2cIrqStatus, pending, enable, irq)
    }

    ghost function View(): State
      reads this
    {
      State(slaves, enabled, transmitBuffer, receiveBuffer, receivedAckNegated, dataFromSlave, timerQueued,
            shouldSendTxRxIrq, BusView(), LinesView())
    }

    constructor (slaves: set<nat>)
      ensures View() == Initial(slaves) && this.slaves == slaves
    {
      this.slaves := slaves;
      enabled, transmitBuffer, receiveBuffer, receivedAckNegated := false, 0, 0, false;
      transactionInProgress, selectedSlave, dataToSlave, dataFromSlave := false, None, [], [];
      i2cIrqStatus, pending, enable, irq := false, {}, {}, false;
      timerQueued, shouldSendTxRxIrq := false, false;
      queued, starts, calls := [], [], [];
    }

    method UpdateInterrupts()
      modifies this
      ensures View() == old(View()).(lines := Update(old(LinesView())))
    {
      if i2cIrqStatus { pending := pending + {I2cInt}; }
      irq := pending * enable != {};
    }

    method SendDataToSlave()
      modifies this
      ensures View() == old(View()).(bus := Send(old(BusView())))
    {
      if |dataToSlave| == 0 || selectedSlave.None? { return; }
      calls := calls + [Wrote(|starts|, selectedSlave.value, dataToSlave)];
      dataToSlave := [];
    }

    /** selectedSlave.FinishTransmission(), if there is one */
    method FinishTransmission()
      modifies this
      ensures View() == old(View()).(bus := TellFinished(old(BusView())))
    {
      if selectedSlave.Some? { calls := calls + [Finished(|starts|, selectedSlave.value)]; }
    }

    method HandleWriteToSlave()
      modifies this
      ensures View() == Write(old(View()))
    {
      hide Update;
      if !transactionInProgress { return; }
      dataToSlave := dataToSlave + [transmitBuffer];
      queued := queued + [Item(transmitBuffer, selectedSlave, |starts|)];
      i2cIrqStatus := true;
      UpdateInterrupts();
    }

    /** `answer` is what the slave's Read returns. */
    method HandleReadFromSlave(answer: seq<byte>)
      modifies this
      ensures View() == Read(old(View()), answer)
    {
      hide Update;
      if selectedSlave.None? { return; }
      dataFromSlave := dataFromSlave + answer;
      if |dataFromSlave| == 0 {
        receiveBuffer := 0;
        return;
      }
      receiveBuffer := dataFromSlave[0];
      dataFromSlave := dataFromSlave[1..];
      UpdateInterrupts();
    }

    /** TryResolveSelectedSlave */
    method TryResolve() returns (resolved: bool)
      modifies this
      ensures resolved == Addressed(old(View())).Some?
      ensures View() == old(View()).(bus := Select(old(BusView()), Addressed(old(View()))), nack := !resolved)
    {
      var address: nat := transmitBuffer / 2;
      starts := starts + [if address in slaves then Some(address) else None];
      if address !in slaves {
        selectedSlave := None;
        receivedAckNegated := true;
        return false;
      }
      selectedSlave := Some(address);
      receivedAckNegated := false;
      resolved := true;
    }

    method HandleStart() returns (resolved: bool)
      modifies this
      ensures View() == Started(old(View())) && resolved == Addressed(old(View())).Some?
    {
      hide Send, Update, TellFinished;
      if transactionInProgress {
        SendDataToSlave();
      } else {
        transactionInProgress := true;
      }
      dataFromSlave := [];
      FinishTransmission();
      resolved := TryResolve();
    }

    method FinishCommand(stop: bool)
      modifies this
      ensures View() == Finish(old(View()), stop)
    {
      hide Send, Update, TellFinished;
      if transactionInProgress && !timerQueued { timerQueued := true; }
      if stop {
        FinishTransmission();
        if !transactionInProgress { return; }
        SendDataToSlave();
        transactionInProgress := false;
      }
      shouldSendTxRxIrq := true;
    }

    method WriteCommand(start: bool, stop: bool, read: bool, write: bool, answer: seq<byte>)
      modifies this
      ensures View() == Step(old(View()), Command(start, stop, read, write, answer))
    {
      hide Write, Read, Finish, Update, Start;
      i2cIrqStatus := false;
      if !enabled { return; }
      if start {
        var resolved := HandleStart();
        if !resolved { return; }
      }
      if write { HandleWriteToSlave(); }
      if read { HandleReadFromSlave(answer); }
      FinishCommand(stop);
    }

    /** EventPending: ones clear. */
    method WritePending(events: set<Event>)
      modifies this
      ensures View() == Step(old(View()), ClearPending(events))
    {
      hide Update, DoCommand;
      pending := pending - events;
      UpdateInterrupts();
    }

    method WriteEnable(events: set<Event>)
      modifies this
      ensures View() == Step(old(View()), SetEnable(events))
    {
      hide Update, DoCommand;
      enable := events;
      UpdateInterrupts();
    }

    method FinishTransaction()
      modifies this
      ensures View() == Step(old(View()), Timer)
    {
      hide Update, DoCommand;
      timerQueued := false;
      if shouldSendTxRxIrq {
        shouldSendTxRxIrq := false;
        UpdateInterrupts();
      }
    }

    /** The registers of the event block back to zero. */
    method ResetEvents()
      modifies this
      ensures View() == old(View()).(lines := Lines(false, {}, {}, old(irq)))
    {
      i2cIrqStatus := false;
      pending := {};
      enable := {};
    }

    /** The other registers back to zero. */
    method ResetRegisters()
      modifies this
      ensures View() == old(View()).(enabled := false, txr := 0, rxr := 0, nack := false)
    {
      enabled := false;
      transmitBuffer := 0;
      receiveBuffer := 0;
      receivedAckNegated := false;
    }

    method ClearQueues()
      modifies this
      ensures View() == old(View()).(fromSlave := [], bus := old(BusView()).(toSlave := []))
    {
      dataToSlave := [];
      dataFromSlave := [];
    }

    method DoReset()
      modifies this
      ensures View() == Step(old(View()), Reset)
    {
      hide Update, DoCommand;
      ResetEvents();
      ResetRegisters();
      ClearQueues();
      UpdateInterrupts();
    }
  }
}
