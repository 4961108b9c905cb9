/** The I2C master's queue of transfers and the interrupt that carries them
    through (drivers/i2c1.c). Submit, Service and Interrupt each run with the
    interrupt masked or inside it, so they are the atomic steps: a run is any
    interleaving of them, with any bus events. */
module I2cBus {
  import opened MachineWords

  datatype Result = NeverSubmitted | Queued | Busy | Ok | NackAddress | NackData | BusError | Timeout

  datatype State = Idle | StartSent | Writing | RestartSent | AddressRead | Reading | Acking | Stopping | Fault

  /** What has gone over the bus: each byte with its acknowledge, a byte sent by
      whoever is addressed, a byte received by us. */
  datatype Wire = Start | Restart | Sent(b: u8, ack: bool) | Got(b: u8, ack: bool) | Stop

  const TIMEOUT_MS: nat := 20

  class I2cTransfer {
    var address: u8
    var write: array?<u8>
    var writeLength: u8
    var read: array?<u8>
    var readLength: u8
    var result: Result
    var next: I2cTransfer?
  }

  // ---- A transfer on the bus --------------------------------------------------

  /** Every byte written is acknowledged. */
  function SentAll(payload: seq<u8>): (w: seq<Wire>)
    ensures |w| == |payload|
  {
    seq(|payload|, i requires 0 <= i < |payload| => Sent(payload[i], true))
  }

  /** Every byte but the last of a read is acknowledged. */
  function GotAll(received: seq<u8>, total: nat): (w: seq<Wire>)
    ensures |w| == |received|
  {
    seq(|received|, i requires 0 <= i < |received| => Got(received[i], i + 1 < total))
  }

  function Written(address: u8, payload: seq<u8>): seq<Wire>
    requires address <= 0x7F
  {
    [Start, Sent(2 * address, true)] + SentAll(payload)
  }

  /** Up to the address to read from: after a repeated start if something was written. */
  function Turned(address: u8, payload: seq<u8>): seq<Wire>
    requires address <= 0x7F
  {
    if payload == [] then [Start] else Written(address, payload) + [Restart]
  }

  function ReadHeader(address: u8, payload: seq<u8>): seq<Wire>
    requires address <= 0x7F
  {
    Turned(address, payload) + [Sent(2 * address + 1, true)]
  }

  /** The whole of a transfer that nothing refused: its bytes written, then, if it
      reads, a repeated start and its bytes read, then a stop. */
  function Whole(address: u8, payload: seq<u8>, received: seq<u8>): seq<Wire>
    requires address <= 0x7F
  {
    (if received == [] then Written(address, payload) else ReadHeader(address, payload) + GotAll(received, |received|))
    + [Stop]
  }

  lemma SentNext(payload: seq<u8>, n: nat)
    requires n < |payload|
    ensures SentAll(payload[..n + 1]) == SentAll(payload[..n]) + [Sent(payload[n], true)]
  {
  }

  lemma GotNext(received: seq<u8>, b: u8, total: nat)
    ensures GotAll(received + [b], total) == GotAll(received, total) + [Got(b, |received| + 1 < total)]
  {
  }

  // A byte received, once it has been acknowledged or not.
  lemma Acknowledged(address: u8, payload: seq<u8>, received: seq<u8>, total: nat, acknowledge: bool, wire: seq<Wire>)
    requires address <= 0x7F && 0 < |received| <= total && acknowledge == (|received| < total)
    requires wire == ReadHeader(address, payload) + GotAll(received[..|received| - 1], total)
    ensures var after := wire + [Got(received[|received| - 1], acknowledge)];
      && after == ReadHeader(address, payload) + GotAll(received, total)
      && (|received| == total ==> after + [Stop] == Whole(address, payload, received))
  {
    hide ReadHeader, GotAll;
    var n := |received| - 1;
    GotNext(received[..n], received[n], total);
    assert received == received[..n] + [received[n]];
  }

  /** A transfer's time on the bus: what it had to write, what it has read, and the wire. */
  datatype Trace = Trace(payload: seq<u8>, received: seq<u8>, wire: seq<Wire>)

  /** The service's view, for timeouts. */
  datatype Watch = Watch(watching: bool, started: u16, sinceMs: u32)

  /** The module's registers: the byte being sent, and the acknowledge to give. */
  datatype Registers = Registers(transmit: u8, acknowledge: bool)

  /** What has gone over the wire in each state, and what is on it now. */
  ghost predicate OnWire(t: I2cTransfer, state: State, pending: Result, position: nat, addressSent: bool,
                         registers: Registers, trace: Trace)
    requires WellFormed(t)
    reads t`address, t`write, t`writeLength, t`read, t`readLength, t.read, t.write
  {
    var Trace(payload, received, wire) := trace;
    && |payload| == t.writeLength
    && match state {
      case Idle => true
      case Fault => true
      case StartSent => wire == [] && received == [] && position == 0 && !addressSent && Holds(t.write, payload)
      case Writing =>
        && received == [] && position <= t.writeLength && (t.writeLength == 0 ==> t.readLength == 0)
        && Holds(t.write, payload) && (addressSent <==> position > 0)
        && registers.transmit == (if position == 0 then 2 * t.address else payload[position - 1])
        && wire == if position == 0 then [Start] else Written(t.address, payload[..position - 1])
      case RestartSent =>
        received == [] && t.writeLength > 0 && t.readLength > 0 && wire == Written(t.address, payload)
      case AddressRead =>
        && received == [] && t.readLength > 0 && registers.transmit == 2 * t.address + 1
        && wire == Turned(t.address, payload)
      case Reading =>
        && |received| == position < t.readLength && Holds(t.read, received)
        && wire == ReadHeader(t.address, payload) + GotAll(received, t.readLength)
      case Acking =>
        && 0 < |received| == position <= t.readLength && Holds(t.read, received)
        && registers.acknowledge == (position < t.readLength)
        && wire == ReadHeader(t.address, payload) + GotAll(received[..position - 1], t.readLength)
      case Stopping =>
        && pending in {Ok, NackAddress, NackData}
        && (pending == Ok ==> Completed(t, trace.(wire := wire + [Stop])))
        && (pending != Ok ==> Refused(pending, wire + [Stop]))
    }
  }

  /** What has just gone over the bus when the module raises its interrupt. A byte
      received is over once it has been acknowledged or not. */
  function Passed(state: State, registers: Registers, refused: bool, received: seq<u8>): seq<Wire> {
    match state
    case StartSent => [Start]
    case Writing => [Sent(registers.transmit, !refused)]
    case RestartSent => [Restart]
    case AddressRead => [Sent(registers.transmit, !refused)]
    case Acking => if received == [] then [] else [Got(received[|received| - 1], registers.acknowledge)]
    case Stopping => [Stop]
    case Reading => []
    case Idle => []
    case Fault => []
  }

  /** The most bus events left before a transfer leaves, unless it is timed out. */
  function EventsLeft(writeLength: nat, readLength: nat, state: State, position: nat): int {
    match state
    case Idle => 0
    case Fault => 0
    case StartSent => 5 + writeLength + 2 * readLength
    case Writing => 4 + (writeLength - position) + 2 * readLength
    case RestartSent => 3 + 2 * readLength
    case AddressRead => 2 + 2 * readLength
    case Reading => 1 + 2 * (readLength - position)
    case Acking => 2 + 2 * (readLength - position)
    case Stopping => 1
  }

  ghost predicate Holds(buffer: array?<u8>, bytes: seq<u8>)
    reads buffer
  {
    bytes == [] || (buffer != null && |bytes| <= buffer.Length && buffer[..|bytes|] == bytes)
  }

  /** All of it went over the bus, and the read buffer holds what came back. */
  ghost predicate Completed(t: I2cTransfer, trace: Trace)
    reads t`address, t`writeLength, t`read, t`readLength, t.read
  {
    var Trace(payload, received, wire) := trace;
    && t.address <= 0x7F && |payload| == t.writeLength && |received| == t.readLength
    && wire == Whole(t.address, payload, received) && Holds(t.read, received)
  }

  ghost function ToWrite(t: I2cTransfer): seq<u8>
    requires WellFormed(t)
    reads t`address, t`write, t`writeLength, t`read, t`readLength, t.write
  {
    if t.writeLength == 0 then [] else t.write[..t.writeLength]
  }

  lemma StartedOnWire(t: I2cTransfer)
    requires WellFormed(t)
    ensures forall registers :: OnWire(t, StartSent, Ok, 0, false, registers, Trace(ToWrite(t), [], []))
  {
  }

  /** A refused transfer stopped at the byte refused, the only one: its address, or
      one after it. */
  predicate Refused(result: Result, wire: seq<Wire>) {
    && |wire| >= 3 && wire[0] == Start && wire[|wire| - 1] == Stop
    && wire[|wire| - 2].Sent? && !wire[|wire| - 2].ack
    && (forall i :: 0 <= i < |wire| - 2 && wire[i].Sent? ==> wire[i].ack)
    && (result == NackAddress <==> |wire| == 3)
  }

  /** Every byte sent was acknowledged. */
  predicate NoneRefused(wire: seq<Wire>) {
    forall i :: 0 <= i < |wire| && wire[i].Sent? ==> wire[i].ack
  }

  /** Something to address, and a buffer for each length. */
  predicate WellFormed(t: I2cTransfer)
    reads t`address, t`write, t`writeLength, t`read, t`readLength
  {
    && t.address <= 0x7F
    && (t.writeLength != 0 ==> t.write != null && t.writeLength <= t.write.Length)
    && (t.readLength != 0 ==> t.read != null && t.readLength <= t.read.Length)
  }

  /** A transfer that left the queue: its result, and what was on the bus. */
  datatype Done = Done(transfer: I2cTransfer, result: Result, address: u8, trace: Trace)

  predicate Sound(d: Done) {
    && d.result !in {NeverSubmitted, Queued, Busy}
    && (d.result == Ok ==> d.address <= 0x7F && d.trace.wire == Whole(d.address, d.trace.payload, d.trace.received)
                           && NoneRefused(d.trace.wire))
    && (d.result in {NackAddress, NackData} ==> Refused(d.result, d.trace.wire))
  }

  function Transfers(done: seq<Done>): (ts: seq<I2cTransfer>)
    ensures |ts| == |done|
  {
    seq(|done|, i requires 0 <= i < |done| => done[i].transfer)
  }

  lemma Left(finished: seq<Done>, queue: seq<I2cTransfer>, submitted: seq<I2cTransfer>, d: Done)
    requires submitted == Transfers(finished) + queue && queue != [] && d.transfer == queue[0] && Sound(d)
    requires forall i :: 0 <= i < |finished| ==> Sound(finished[i])
    ensures submitted == Transfers(finished + [d]) + queue[1..]
    ensures forall i :: 0 <= i < |finished + [d]| ==> Sound((finished + [d])[i])
  {
    assert Transfers(finished + [d]) == Transfers(finished) + [d.transfer];
  }

  class I2cMaster {
    var head: I2cTransfer?
    var tail: I2cTransfer?
    var state: State
    var pending: Result
    var position: u8
    var addressSent: bool
    var registers: Registers
    var started: u16
    var watch: Watch

    // The queue as a sequence; every transfer ever taken; the order they were
    // taken in and left in.
    ghost var queue: seq<I2cTransfer>
    ghost var taken: set<I2cTransfer>
    ghost var submitted: seq<I2cTransfer>
    ghost var finished: seq<Done>
    // The transfer on the bus.
    ghost var trace: Trace

    predicate Active()
      reads this`state
    {
      state != Idle && state != Fault
    }

    /** An acyclic list of distinct transfers, head first and tail last. */
    ghost predicate Chain()
      reads this`head, this`tail, this`queue, this`taken, taken
    {
      && (forall i :: 0 <= i < |queue| ==> queue[i] in taken && WellFormed(queue[i]))
      && (forall i, j :: 0 <= i < j < |queue| ==> queue[i] != queue[j])
      && (if queue == [] then head == null && tail == null else head == queue[0] && tail == queue[|queue| - 1])
      && (forall i, j :: 0 <= i && j == i + 1 && j < |queue| ==> queue[i].next == queue[j])
      && (queue != [] ==> queue[|queue| - 1].next == null)
    }

    /** A transfer taken is queued or busy exactly while it is in the list, and
        only the head of it is ever busy: when it is on the bus. */
    ghost predicate Results(busy: bool)
      reads this`queue, this`taken, taken
    {
      && (forall t :: t in taken ==> (t.result in {Queued, Busy} <==> t in queue))
      && (forall t :: t in taken ==> (t.result == Busy <==> busy && queue != [] && t == queue[0]))
    }

    /** Every transfer taken leaves once, in the order taken, and with a sound result. */
    ghost predicate Order()
      reads this`submitted, this`finished, this`queue
    {
      && submitted == Transfers(finished) + queue
      && forall i :: 0 <= i < |finished| ==> Sound(finished[i])
    }

    ghost predicate Valid()
      reads this, taken, if head == null then {} else {head, head.read, head.write}
    {
      && Chain() && Results(Active()) && Order()
      && (Active() ==> queue != []) && (state == Idle ==> queue == [])
      && (Active() && queue != [] ==>
            && head == queue[0] && WellFormed(head)
            && OnWire(head, state, pending, position, addressSent, registers, trace))
    }

    /** i2c1_init() */
    constructor ()
      ensures Valid() && queue == [] && state == Idle && finished == [] && taken == {}
    {
      head, tail, state, pending, position, addressSent, started := null, null, Idle, Ok, 0, false, 0;
      registers, watch := Registers(0, false), Watch(false, 0, 0);
      queue, taken, submitted, finished, trace := [], {}, [], [], Trace([], [], []);
    }

    // The transfer at the head goes on the bus.
    method MarkBusy()
      requires Chain() && Results(false) && queue != []
      modifies head`result
      ensures Chain() && Results(true)
    {
      HeadOf();
      head.result := Busy;
    }

    lemma HeadOf()
      requires Chain() && queue != []
      ensures head == queue[0] && WellFormed(head) && head in taken
      ensures head.next == if |queue| > 1 then queue[1] else null
    {
    }

    /** start_next() */
    method StartNext()
      requires Chain() && Results(false) && Order()
      modifies this`state, this`position, this`addressSent, this`pending, this`started, this`trace, head
      ensures Valid() && state == (if queue == [] then Idle else StartSent)
    {
      hide Order, Results, Chain, OnWire, WellFormed;
      EmptyOrHead();
      if head == null {
        state := Idle;
        return;
      }
      MarkBusy();
      Begin();
    }

    // ... with its start condition.
    method Begin()
      requires Chain() && Results(true) && Order() && queue != []
      modifies this`state, this`position, this`addressSent, this`pending, this`started, this`trace
      ensures Valid() && state == StartSent
    {
      hide Order, Results, Chain, OnWire, WellFormed, ToWrite;
      HeadWellFormed();
      StartedOnWire(head);
      StartBus(ToWrite(head));
    }

    method StartBus(ghost payload: seq<u8>)
      modifies this`state, this`position, this`addressSent, this`pending, this`started, this`trace
      ensures state == StartSent && position == 0 && !addressSent && pending == Ok
      ensures trace == Trace(payload, [], [])
    {
      position, addressSent, pending, state := 0, false, Ok, StartSent;
      started := if started == U16 - 1 then 0 else started + 1;
      trace := Trace(payload, [], []);
    }

    lemma HeadWellFormed()
      requires Chain() && queue != []
      ensures head == queue[0] && WellFormed(head)
    {
    }

    lemma EmptyOrHead()
      requires Chain()
      ensures head == null <==> queue == []
      ensures queue != [] ==> head == queue[0]
    {
    }

    lemma HeadTaken()
      requires Chain()
      ensures head != null ==> head in taken
    {
    }

    lemma NotQueued(t: I2cTransfer)
      requires Chain() && Results(Active())
      ensures t in queue ==> t.result in {Queued, Busy}
    {
    }

    // A transfer that is not queued is not in the list.
    lemma TailTaken(t: I2cTransfer)
      requires Chain() && Results(Active()) && t.result !in {Queued, Busy}
      ensures if tail == null then queue == [] else tail in taken && queue != [] && tail == queue[|queue| - 1] && tail != t
      ensures queue != [] ==> head == queue[0] && head != t
    {
    }

    // The head is taken out of the list.
    method Unlink() returns (done: I2cTransfer)
      requires Chain() && queue != []
      modifies this`head, this`tail, this`queue, head`next
      ensures Chain() && queue == old(queue)[1..] && done == old(head) == old(queue)[0]
    {
      hide WellFormed;
      HeadOf();
      ghost var before := queue;
      done := head;
      head := done.next;
      if head == null {
        tail := null;
      }
      done.next := null;
      queue := queue[1..];
      assert forall i :: 0 <= i < |queue| ==> queue[i] == before[i + 1] && queue[i] != done;
      forall i, j | 0 <= i && j == i + 1 && j < |queue|
        ensures queue[i].next == queue[j]
      {
        assert old(before[i + 1].next) == before[j + 1];
      }
      assert queue != [] ==> queue[|queue| - 1] == before[|before| - 1];
    }

    // ... and given its result: no transfer is busy then.
    method Conclude(done: I2cTransfer, result: Result, ghost before: seq<I2cTransfer>)
      requires Chain() && before != [] && done == before[0] && queue == before[1..] && result !in {NeverSubmitted, Queued, Busy}
      requires forall i :: 1 <= i < |before| ==> before[i] != done
      requires forall t :: t in taken ==> (t.result in {Queued, Busy} <==> t in before)
      requires forall t :: t in taken ==> (t.result == Busy ==> t == done)
      modifies done`result
      ensures Chain() && Results(false)
    {
      assert before == [done] + queue;
      done.result := result;
    }

    /** finish(): the head leaves with its result. */
    method Finish(result: Result)
      requires Chain() && Results(Active()) && Order() && queue != []
      requires result !in {NeverSubmitted, Queued, Busy} && Sound(Done(queue[0], result, queue[0].address, trace))
      modifies this`head, this`tail, this`queue, this`finished, head`next, head`result
      ensures Chain() && Results(false) && Order() && queue == old(queue)[1..]
      ensures finished == old(finished) + [Done(old(head), result, old(head.address), trace)]
    {
      hide Sound, Transfers, WellFormed;
      ghost var before, d := queue, Done(head, result, head.address, trace);
      Left(finished, queue, submitted, d);
      var done := Unlink();
      finished := finished + [d];
      Conclude(done, result, before);
    }

    /** stop() */
    method StopBus(result: Result)
      modifies this`pending, this`state
      ensures pending == result && state == Stopping
    {
      pending := result;
      state := Stopping;
    }

    /** write_next(): after the address or a byte written was acknowledged. */
    method WriteNext()
      requires state == Writing && head != null && WellFormed(head) && addressSent && position <= head.writeLength
      requires |trace.payload| == head.writeLength && Holds(head.write, trace.payload) && trace.received == []
      requires trace.wire == Written(head.address, trace.payload[..position])
      requires head.writeLength == 0 ==> head.readLength == 0
      modifies this`state, this`position, this`pending, this`registers
      ensures OnWire(head, state, pending, position, addressSent, registers, trace) && Active()
      ensures EventsLeft(head.writeLength, head.readLength, state, position)
              < EventsLeft(head.writeLength, head.readLength, Writing, old(position))
      ensures state == Stopping ==> pending == Ok
    {
      var t := head;
      assert trace.payload[..|trace.payload|] == trace.payload;
      if position < t.writeLength {
        registers := registers.(transmit := t.write[position]);
        position := position + 1;
      } else if t.readLength != 0 {
        state := RestartSent;
      } else {
        StopBus(Ok);
      }
    }

    // A byte received goes into the buffer, to be acknowledged unless it is the last.
    method ReadByte(value: u8)
      requires OnBus() && state == Reading
      modifies this`state, this`position, this`registers, this`trace, head.read
      ensures OnBus() && state == Acking && 0 < ToCome() < old(ToCome())
      ensures head.read[old(position)] == value && position == old(position) + 1
      ensures trace == old(trace).(received := old(trace.received) + [value])
    {
      ghost var before := head.read[..position];
      head.read[position] := value;
      assert head.read[..position] == before;
      position := position + 1;
      registers := registers.(acknowledge := position < head.readLength);
      state := Acking;
      assert head.read[..position] == before + [value];
      trace := trace.(received := trace.received + [value]);
      assert trace.received[..position - 1] == before;
    }

    /** A transfer is on the bus, its trace as its state has it. */
    ghost predicate OnBus()
      reads this, if head == null then {} else {head, head.read, head.write}
    {
      Active() && head != null && WellFormed(head) && OnWire(head, state, pending, position, addressSent, registers, trace)
    }

    ghost function ToCome(): int
      reads this, if head == null then {} else {head}
    {
      if head == null then 0 else EventsLeft(head.writeLength, head.readLength, state, position)
    }

    // What has just gone over the bus goes into the log.
    ghost method Log(refused: bool)
      modifies this`trace
      ensures trace == old(trace).(wire := old(trace.wire) + Passed(state, registers, refused, old(trace.received)))
    {
      trace := trace.(wire := trace.wire + Passed(state, registers, refused, trace.received));
    }

    // After the start: the address to write to, or to read from if that is all there is.
    method SendAddress()
      requires OnBus() && state == StartSent
      modifies this`state, this`registers, this`trace
      ensures OnBus() && 0 < ToCome() < old(ToCome()) && !(state == Stopping)
      ensures trace == old(trace).(wire := old(trace.wire) + [Start])
    {
      var t := head;
      Log(false);
      if t.writeLength != 0 || t.readLength == 0 {
        state := Writing;
        registers := registers.(transmit := 2 * t.address);
      } else {
        state := AddressRead;
        registers := registers.(transmit := 2 * t.address + 1);
      }
    }

    // After the address or a byte written.
    method AfterWrite(refused: bool)
      requires OnBus() && state == Writing
      modifies this`state, this`position, this`addressSent, this`pending, this`registers, this`trace
      ensures OnBus() && 0 < ToCome() < old(ToCome())
      ensures trace == old(trace).(wire := old(trace.wire) + [Sent(old(registers.transmit), !refused)])
      ensures if refused then state == Stopping && pending == (if old(trace.wire) == [Start] then NackAddress else NackData)
              else state == Stopping ==> pending == Ok
    {
      hide SentAll;
      Log(refused);
      if refused {
        if position > 0 {
          WholeUnrefused(head.address, trace.payload[..position - 1], [], 0);
        }
        RefusedLast(old(trace.wire), registers.transmit);
        StopBus(if addressSent then NackData else NackAddress);
      } else {
        if position > 0 {
          SentNext(trace.payload, position - 1);
        } else {
          assert SentAll(trace.payload[..0]) == [];
        }
        addressSent := true;
        WriteNext();
      }
    }

    // After the repeated start: the address to read from.
    method AfterRestart()
      requires OnBus() && state == RestartSent
      modifies this`state, this`registers, this`trace
      ensures OnBus() && 0 < ToCome() < old(ToCome()) && !(state == Stopping)
      ensures trace == old(trace).(wire := old(trace.wire) + [Restart])
    {
      hide SentAll;
      Log(false);
      state := AddressRead;
      registers := registers.(transmit := 2 * head.address + 1);
    }

    // After the address to read from.
    method AfterAddress(refused: bool)
      requires OnBus() && state == AddressRead
      modifies this`state, this`position, this`pending, this`trace
      ensures OnBus() && 0 < ToCome() < old(ToCome())
      ensures trace == old(trace).(wire := old(trace.wire) + [Sent(old(registers.transmit), !refused)])
      ensures if refused then state == Stopping && pending == (if old(trace.wire) == [Start] then NackAddress else NackData)
              else state == Reading
    {
      hide SentAll, GotAll;
      Log(refused);
      if refused {
        // The address answered, if it was written to.
        WholeUnrefused(head.address, trace.payload, [], 0);
        RefusedLast(old(trace.wire), registers.transmit);
        StopBus(if head.writeLength != 0 then NackData else NackAddress);
      } else {
        position := 0;
        state := Reading;
        NoneGot(head.readLength);
      }
    }

    // After a byte received was acknowledged or not.
    method AfterAck()
      requires OnBus() && state == Acking
      modifies this`state, this`pending, this`trace
      ensures OnBus() && 0 < ToCome() < old(ToCome()) && old(trace.received) != []
      ensures trace == old(trace).(wire := old(trace.wire)
                + [Got(old(trace.received)[|old(trace.received)| - 1], old(registers.acknowledge))])
      ensures state == Stopping ==> pending == Ok
    {
      hide SentAll, GotAll, ReadHeader, Turned, Written, Whole;
      Acknowledged(head.address, trace.payload, trace.received, head.readLength, registers.acknowledge, trace.wire);
      Log(false);
      if position < head.readLength {
        state := Reading;
      } else {
        StopBus(Ok);
      }
    }

    /** The events of a transfer before its stop: what has gone over the bus is
        logged, and a byte refused stops it, as refused at its address only if
        that was the first. */
    method Progress(refused: bool, value: u8)
      requires OnBus() && state != Stopping
      modifies this`state, this`position, this`addressSent, this`pending, this`registers, this`trace, head.read
      ensures OnBus() && 0 < ToCome() < old(ToCome())
      ensures old(state) != Reading && head.read != null ==> head.read[..] == old(head.read[..])
      ensures trace.wire == old(trace.wire) + old(Passed(state, registers, refused, trace.received))
      ensures refused && (old(state) == Writing || old(state) == AddressRead) ==>
                state == Stopping && pending == (if old(trace.wire) == [Start] then NackAddress else NackData)
      ensures state == Stopping ==> pending == Ok || (refused && (old(state) == Writing || old(state) == AddressRead))
    {
      hide OnWire, WellFormed;
      match state {
        case StartSent => SendAddress();
        case Writing => AfterWrite(refused);
        case RestartSent => AfterRestart();
        case AddressRead => AfterAddress(refused);
        case Reading =>
          ReadByte(value);
          assert trace.wire == trace.wire + [];
        case Acking => AfterAck();
      }
    }

    /** _MI2C1Interrupt(): a bus event, with what the module shows. */
    method Interrupt(collision: bool, refused: bool, value: u8)
      requires Valid()
      modifies this, taken, if head == null then {} else {head.read}
      ensures Valid() && submitted == old(submitted) && taken == old(taken)
      // A transfer leaves only at its stop, with the result it stopped with, or by a collision.
      ensures collision && old(Active()) ==> Ended(old(finished), old(head), BusError, old(trace)) && state == Fault
      ensures !collision && old(state) == Stopping ==>
                Ended(old(finished), old(head), old(pending), old(trace).(wire := old(trace.wire) + [Stop]))
      ensures !(collision && old(Active())) && !(!collision && old(state) == Stopping) ==> finished == old(finished)
      ensures old(state) == Stopping && old(pending) == Ok && !collision ==>
                old(Completed(head, trace.(wire := trace.wire + [Stop])))
      // After a collision the bus waits to be put right, after a stop the next transfer starts.
      ensures collision ==> state == Fault
      ensures !collision && old(state) == Stopping ==> state == if queue == [] then Idle else StartSent
      ensures !collision && !old(Active()) ==> state == if queue == [] then Idle else old(state)
      // Every event brings it nearer: it leaves after at most so many.
      ensures !collision && old(Active()) && old(state) != Stopping ==>
                && head == old(head) && Active() && 0 < ToCome() < old(ToCome())
                && trace.wire == old(trace.wire) + old(Passed(state, registers, refused, trace.received))
      // A byte refused stops it, and nothing else ends it with a refusal.
      ensures !collision && refused && (old(state) == Writing || old(state) == AddressRead) ==>
                state == Stopping && pending == (if old(trace.wire) == [Start] then NackAddress else NackData)
      ensures !collision && old(Active()) && old(state) != Stopping && state == Stopping ==>
                pending == Ok || (refused && (old(state) == Writing || old(state) == AddressRead))
    {
      hide Chain, Results, Order, OnWire, WellFormed, Completed, Sound;
      if collision {
        Collide();
      } else if Active() {
        if state == Stopping {
          EmptyOrHead();
          HeadTaken();
          Log(refused);
          Stopped(head, pending, position, addressSent, registers, old(trace));
          Finish(pending);
          HeadTaken();
          StartNext();
        } else {
          Progress(refused, value);
        }
      } else {
        EmptyOrHead();
        if head == null {
          state := Idle;
        }
      }
    }

    ghost predicate Ended(before: seq<Done>, t: I2cTransfer?, result: Result, trace: Trace)
      reads this`finished
    {
      && |finished| == |before| + 1 && finished[..|before|] == before
      && finished[|before|].transfer == t && finished[|before|].result == result && finished[|before|].trace == trace
    }

    // A collision: the transfer ends, and nothing more happens until Service() has put the bus right.
    method Collide()
      requires Valid()
      modifies this`head, this`tail, this`queue, this`finished, this`state, taken
      ensures Valid() && state == Fault
      ensures if old(Active()) then Ended(old(finished), old(head), BusError, old(trace)) else finished == old(finished)
    {
      hide Chain, Results, Order, OnWire, WellFormed;
      EmptyOrHead();
      if head != null && state != Idle && state != Fault {
        HeadOf();
        Finish(BusError);
      }
      state := Fault;
    }

    /** A submission the driver refuses: nothing to address or no buffer for a
        length, or in the queue already. */
    predicate Refuses(t: I2cTransfer?)
      reads t
    {
      || t == null || t.address > 0x7F || (t.writeLength != 0 && t.write == null) || (t.readLength != 0 && t.read == null)
      || t.result == Queued || t.result == Busy
    }

    /** A transfer's buffers are as long as it says. */
    predicate LongEnough(t: I2cTransfer?)
      reads t
    {
      && (t != null && t.write != null ==> t.writeLength <= t.write.Length)
      && (t != null && t.read != null ==> t.readLength <= t.read.Length)
    }

    /** i2c1_submit(): in order, and on the bus at once if it is idle. A transfer
        taken before may be submitted again once it has left. */
    method Submit(t: I2cTransfer?) returns (accepted: bool)
      requires Valid() && LongEnough(t)
      modifies this, taken, t
      ensures Valid() && finished == old(finished)
      ensures accepted <==> !old(Refuses(t))
      ensures accepted <==>
                && t != null && t.address <= 127 && (t.writeLength > 0 ==> t.write != null) && (t.readLength > 0 ==> t.read != null)
                && old(t.result !in {Queued, Busy})
      ensures t in old(queue) ==> !accepted
      ensures accepted ==> submitted == old(submitted) + [t] && queue == old(queue) + [t] && taken == old(taken) + {t}
      ensures !accepted ==> submitted == old(submitted) && queue == old(queue) && taken == old(taken)
      ensures state == if accepted && old(state) == Idle then StartSent else old(state)
    {
      hide Chain, Results, Order, OnWire;
      if t == null || t.address > 0x7F || (t.writeLength != 0 && t.write == null) || (t.readLength != 0 && t.read == null) {
        return false;
      }
      NotQueued(t);
      if t.result == Queued || t.result == Busy {
        return false;
      }
      EmptyOrHead();
      HeadTaken();
      TailTaken(t);
      if tail != null {
        EnqueueAfter(tail, t);
      } else {
        EnqueueFirst(t);
      }
      HeadTaken();
      if state == Idle {
        StartNext();
      }
      return true;
    }

    // The transfer goes to the tail.
    method EnqueueFirst(t: I2cTransfer)
      requires Chain() && Results(Active()) && Order() && WellFormed(t) && queue == [] && !Active() && t.result !in {Queued, Busy}
      modifies this`head, this`tail, this`submitted, this`taken, this`queue, t`result, t`next
      ensures Chain() && Results(Active()) && Order()
      ensures submitted == old(submitted) + [t] && queue == [t] && taken == old(taken) + {t}
    {
      hide Sound, WellFormed;
      t.result := Queued;
      t.next := null;
      head := t;
      tail := t;
      submitted := submitted + [t];
      taken := taken + {t};
      queue := queue + [t];
    }

    method EnqueueAfter(last: I2cTransfer, t: I2cTransfer)
      requires Chain() && Results(Active()) && Order() && WellFormed(t) && t.result !in {Queued, Busy}
      requires queue != [] && last == queue[|queue| - 1] && last != t
      modifies this`tail, this`submitted, this`taken, this`queue, t`result, t`next, last`next
      ensures Chain() && Results(Active()) && Order()
      ensures submitted == old(submitted) + [t] && queue == old(queue) + [t] && taken == old(taken) + {t}
    {
      hide Sound, Transfers, WellFormed;
      t.result := Queued;
      t.next := null;
      tail.next := t;
      tail := t;
      submitted := submitted + [t];
      taken := taken + {t};
      queue := queue + [t];
    }

    /** i2c1_service() */
    method Service(nowMs: u32)
      requires Valid()
      modifies this, taken
      ensures Valid() && submitted == old(submitted) && taken == old(taken)
      // A transfer that has been on the bus for more than the timeout leaves, and
      // the next starts; so it does after a fault.
      ensures old(Expired(nowMs)) ==> Ended(old(finished), old(head), Timeout, old(trace))
      ensures !old(Expired(nowMs)) ==> finished == old(finished)
      ensures old(Expired(nowMs)) || old(state) == Fault ==> state == (if queue == [] then Idle else StartSent)
      ensures !old(Expired(nowMs)) && old(state) != Fault ==> state == old(state)
      ensures !old(Expired(nowMs)) && old(Active()) ==>
                watch == Watch(true, started, if old(watch.watching && watch.started == started) then old(watch.sinceMs) else nowMs)
    {
      hide Chain, Results, Order, OnWire, WellFormed;
      var fault := state == Fault;
      if state == Idle || fault {
        watch := watch.(watching := false);
      } else if !watch.watching || watch.started != started {
        watch := Watch(true, started, nowMs);
      }
      var expired := watch.watching && Wrap32(nowMs - watch.sinceMs) > TIMEOUT_MS;
      if expired || fault {
        EmptyOrHead();
        HeadTaken();
        if expired && head != null {
          Finish(Timeout);
        }
        watch := watch.(watching := false);
        HeadTaken();
        StartNext();
      }
    }

    /** That is more than 20 ms after the service first saw it, through any wrap. */
    lemma ExpiredIs(nowMs: u32, age: u32)
      requires nowMs == Wrap32(watch.sinceMs + age)
      ensures Expired(nowMs) <==> Active() && watch.watching && watch.started == started && age > 20
    {
      assert Wrap32(Wrap32(watch.sinceMs + age) - watch.sinceMs) == age;
    }

    /** The service has seen the transfer on the bus for longer than the timeout. */
    predicate Expired(nowMs: u32)
      reads this`state, this`watch, this`started
    {
      Active() && watch.watching && watch.started == started && Wrap32(nowMs - watch.sinceMs) > TIMEOUT_MS
    }
  }

  lemma NoneGot(total: nat)
    ensures GotAll([], total) == []
  {
  }

  // A byte refused after others that were not.
  lemma RefusedLast(wire: seq<Wire>, b: u8)
    ensures wire != [] && wire[0] == Start && NoneRefused(wire) ==>
              && Refused(NackAddress, wire + [Sent(b, false)] + [Stop]) == (wire == [Start])
              && Refused(NackData, wire + [Sent(b, false)] + [Stop]) == (wire != [Start])
  {
    if wire != [] && wire[0] == Start && NoneRefused(wire) {
      var w := wire + [Sent(b, false)] + [Stop];
      assert |w| == |wire| + 2 && w[|w| - 2] == Sent(b, false) && w[|w| - 1] == Stop && w[0] == Start;
      forall i | 0 <= i < |w| - 2 && w[i].Sent?
        ensures w[i].ack
      {
        assert w[i] == wire[i];
      }
    }
  }

  /** Nothing is refused in a whole transfer, nor in any part of one. */
  lemma WholeUnrefused(address: u8, payload: seq<u8>, received: seq<u8>, total: nat)
    requires address <= 0x7F
    ensures NoneRefused(Written(address, payload)) && NoneRefused(Turned(address, payload))
    ensures NoneRefused(ReadHeader(address, payload) + GotAll(received, total))
    ensures NoneRefused(Whole(address, payload, received))
  {
  }

  /** A transfer at its stop: OK only if it went whole and nothing was refused,
      refused only at the byte it stopped after. */
  lemma Stopped(t: I2cTransfer, pending: Result, position: nat, addressSent: bool, registers: Registers, trace: Trace)
    requires WellFormed(t) && OnWire(t, Stopping, pending, position, addressSent, registers, trace)
    ensures var stopped := trace.(wire := trace.wire + [Stop]);
      && Sound(Done(t, pending, t.address, stopped))
      && (pending == Ok ==> Completed(t, stopped))
  {
    if pending == Ok {
      WholeUnrefused(t.address, trace.payload, trace.received, 0);
    }
  }
}
