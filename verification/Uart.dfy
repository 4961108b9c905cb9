/** The UART's two rings (drivers/uart1.c): one producer and one consumer each,
    the foreground on one side and an interrupt on the other, without locks.
    Interrupts() stands between any two steps of the foreground that the other
    side can see: any number of interrupts and hardware events, in any order. */
module UartRings {
  import opened MachineWords

  const SIZE: nat := 1024
  const FIFO_DEPTH: nat := 4

  type Index = i: nat | i < SIZE

  /** (i & mask), for an index stepped past the end. */
  function Slot(i: nat): Index {
    i % SIZE
  }

  /** tx_count() and rx_count(), in 16-bit arithmetic. */
  function Count(head: Index, tail: Index): nat {
    (head - tail) % U16 % SIZE
  }

  /** The bytes queued. */
  function Queue(ring: seq<u8>, tail: Index, count: nat): (q: seq<u8>)
    requires |ring| == SIZE
    ensures |q| == count
  {
    seq(count, i requires 0 <= i < count => ring[Slot(tail + i)])
  }

  /** The masked difference is always the length of the queue, at most SIZE - 1. */
  lemma CountIs(head: Index, tail: Index)
    ensures Count(head, tail) == (if head >= tail then head - tail else head + SIZE - tail) < SIZE
    ensures head == Slot(tail + Count(head, tail))
    ensures Count(head, tail) == 0 <==> head == tail
  {
  }

  lemma Popped(ring: seq<u8>, head: Index, tail: Index)
    requires |ring| == SIZE && head != tail
    ensures Count(head, Slot(tail + 1)) == Count(head, tail) - 1
    ensures Queue(ring, tail, Count(head, tail)) == [ring[tail]] + Queue(ring, Slot(tail + 1), Count(head, tail) - 1)
  {
    CountIs(head, tail);
    CountIs(head, Slot(tail + 1));
    var n := Count(head, tail);
    Joined(ring, tail, 1, n - 1);
    Single(ring, tail);
  }

  lemma CountMore(head: Index, tail: Index, k: nat)
    requires Count(head, tail) + k < SIZE
    ensures Count(Slot(head + k), tail) == Count(head, tail) + k
  {
    CountIs(head, tail);
    CountIs(Slot(head + k), tail);
  }

  lemma SlotAgain(a: nat, b: nat, c: nat)
    ensures Slot(Slot(a + b) + c) == Slot(a + b + c)
  {
  }

  lemma Joined(ring: seq<u8>, tail: Index, n: nat, k: nat)
    requires |ring| == SIZE
    ensures Queue(ring, tail, n + k) == Queue(ring, tail, n) + Queue(ring, Slot(tail + n), k)
  {
    var rest := Queue(ring, Slot(tail + n), k);
    forall i | 0 <= i < k
      ensures Queue(ring, tail, n + k)[n..][i] == rest[i]
    {
      SlotAgain(tail, n, i);
    }
    assert Queue(ring, tail, n + k)[n..] == rest;
  }

  lemma Single(ring: seq<u8>, at: Index)
    requires |ring| == SIZE
    ensures Queue(ring, at, 1) == [ring[at]]
  {
    assert Slot(at + 0) == at;
    assert Queue(ring, at, 1)[0] == ring[Slot(at + 0)];
  }

  lemma Distinct(tail: Index, i: nat, j: nat)
    requires i < j < i + SIZE
    ensures Slot(tail + i) != Slot(tail + j)
  {
    var a, b := tail + i, tail + j;
    assert a == a / SIZE * SIZE + a % SIZE && b == b / SIZE * SIZE + b % SIZE;
  }

  /** A byte put beyond the queue does not disturb it. */
  lemma PutBeyond(ring: seq<u8>, tail: Index, n: nat, at: nat, value: u8)
    requires |ring| == SIZE && n <= at < SIZE
    ensures Queue(ring[Slot(tail + at) := value], tail, n) == Queue(ring, tail, n)
    ensures ring[Slot(tail + at) := value][Slot(tail + at)] == value
  {
    var after := ring[Slot(tail + at) := value];
    forall i | 0 <= i < n
      ensures Queue(after, tail, n)[i] == Queue(ring, tail, n)[i]
    {
      Distinct(tail, i, at);
    }
  }

  // ---- Transmit -----------------------------------------------------------------

  class Transmitter {
    const ring: array<u8>
    var head: Index
    var tail: Index
    var enabled: bool
    // The interrupt's enable and flag, and the hardware behind it.
    var interruptOn: bool
    var flag: bool
    var fifo: seq<u8>
    // Every byte accepted, and every byte sent.
    ghost var accepted: seq<u8>
    ghost var sent: seq<u8>

    ghost function Queued(): seq<u8>
      reads this`head, this`tail, ring
      requires ring.Length == SIZE
    {
      Queue(ring[..], tail, Count(head, tail))
    }

    /** What is accepted goes out once, in order. */
    ghost predicate Safe()
      reads this`head, this`tail, this`fifo, this`accepted, this`sent, ring
    {
      && ring.Length == SIZE && |fifo| <= FIFO_DEPTH
      && accepted == sent + fifo + Queued()
    }

    /** Whatever is queued will raise the interrupt... */
    predicate Kicked()
      reads this`head, this`tail, this`flag, this`fifo
    {
      head != tail ==> flag || fifo != []
    }

    /** ... and it is on: no byte is ever left behind. */
    predicate Live()
      reads this`head, this`tail, this`flag, this`fifo, this`enabled, this`interruptOn
    {
      Kicked() && (enabled && head != tail ==> interruptOn)
    }

    ghost predicate Valid()
      reads this, ring
    {
      Safe() && Live()
    }

    /** After uart1_init(). */
    constructor ()
      ensures Valid() && enabled && accepted == [] && fresh(ring)
    {
      ring := new u8[SIZE];
      head, tail, enabled, interruptOn, flag, fifo := 0, 0, true, false, false, [];
      accepted, sent := [], [];
    }

    // ---- The other side -------------------------------------------------------

    // A byte leaves the hardware's buffer; emptying it raises the flag.
    method Shift()
      requires Safe()
      modifies this`fifo, this`flag, this`sent
      ensures Safe() && (old(Kicked()) ==> Kicked()) && old(sent) <= sent
      ensures flag ==> old(flag) || |sent| > |old(sent)|
    {
      if fifo != [] {
        sent := sent + [fifo[0]];
        fifo := fifo[1..];
        if fifo == [] {
          flag := true;
        }
      }
    }

    /** fill_tx_fifo(). The hardware may make room as it goes. */
    method FillFifo()
      requires Safe()
      modifies this`tail, this`fifo, this`flag, this`sent
      ensures Safe() && (head == tail || |fifo| == FIFO_DEPTH) && old(sent) <= sent
      ensures Count(head, tail) <= old(Count(head, tail))
      ensures if old(head != tail && |fifo| < FIFO_DEPTH) then Count(head, tail) < old(Count(head, tail)) else fifo == old(fifo)
      ensures old(Kicked()) ==> Kicked()
      ensures flag ==> old(flag) || |sent| > |old(sent)|
    {
      hide Queue, Count;
      while tail != head && |fifo| < FIFO_DEPTH
        invariant Safe() && Count(head, tail) <= old(Count(head, tail)) && old(sent) <= sent
        invariant old(Kicked()) ==> Kicked()
        invariant flag ==> old(flag) || |sent| > |old(sent)|
        invariant if tail == old(tail) then fifo == old(fifo) else old(head != tail && |fifo| < FIFO_DEPTH)
        invariant tail != old(tail) ==> Count(head, tail) < old(Count(head, tail))
        decreases Count(head, tail)
      {
        MoveByte();
        var sends: bool := *;
        if sends {
          Shift();
        }
      }
    }

    // The next byte goes to the hardware.
    method MoveByte()
      requires Safe() && tail != head && |fifo| < FIFO_DEPTH
      modifies this`tail, this`fifo
      ensures Safe() && fifo != [] && Count(head, tail) < old(Count(head, tail))
    {
      hide Queue, Count;
      Popped(ring[..], head, tail);
      fifo := fifo + [ring[tail]];
      tail := Slot(tail + 1);
    }

    /** The same from the foreground: only while the interrupt is off. */
    method FillMasked()
      requires Safe() && !interruptOn
      modifies this`tail, this`fifo, this`flag, this`sent
      ensures Safe() && (head == tail || |fifo| == FIFO_DEPTH) && old(sent) <= sent
      ensures if old(head != tail && |fifo| < FIFO_DEPTH) then Count(head, tail) < old(Count(head, tail)) else fifo == old(fifo)
      ensures Count(head, tail) <= old(Count(head, tail)) && (old(Kicked()) ==> Kicked())
    {
      FillFifo();
    }

    /** _U1TXInterrupt(). It is raised again only by what the hardware sends. */
    method Interrupt()
      requires Safe()
      modifies this`tail, this`fifo, this`flag, this`interruptOn, this`sent
      ensures Safe() && Kicked() && old(sent) <= sent && Count(head, tail) <= old(Count(head, tail))
      ensures head == tail || |fifo| == FIFO_DEPTH
      ensures if old(head != tail && |fifo| < FIFO_DEPTH) then Count(head, tail) < old(Count(head, tail)) else fifo == old(fifo)
      ensures interruptOn == (old(interruptOn) && head != tail)
      ensures flag ==> |sent| > |old(sent)|
    {
      flag := false;
      FillFifo();
      if tail == head {
        interruptOn := false;
      }
    }

    /** Anything the other side may do between two steps of the foreground. */
    method Interrupts()
      requires Safe()
      modifies this`tail, this`fifo, this`flag, this`interruptOn, this`sent
      ensures Safe() && Count(head, tail) <= old(Count(head, tail)) && old(sent) <= sent
      ensures old(Kicked()) ==> Kicked()
      ensures (head != tail ==> interruptOn == old(interruptOn)) && (interruptOn ==> old(interruptOn))
      ensures Count(head, tail) < old(Count(head, tail)) || (tail == old(tail) && |fifo| <= |old(fifo)|)
      ensures old(Live()) ==> Live()
    {
      hide Count, Queue;
      var events: nat := *;
      while events > 0
        invariant Safe() && Count(head, tail) <= old(Count(head, tail)) && old(sent) <= sent
        invariant old(Kicked()) ==> Kicked()
        invariant (head != tail ==> interruptOn == old(interruptOn)) && (interruptOn ==> old(interruptOn))
        invariant old(head) == old(tail) ==> head == tail
        invariant Count(head, tail) < old(Count(head, tail)) || (tail == old(tail) && |fifo| <= |old(fifo)|)
      {
        var shift: bool := *;
        if shift {
          Shift();
        } else if interruptOn && flag {
          CountIs(head, tail);
          Interrupt();
          CountIs(head, tail);
        }
        events := events - 1;
      }
    }

    // ---- The foreground ---------------------------------------------------------

    /** uart1_tx_free() */
    method Free() returns (free: nat)
      requires Safe()
      modifies this`tail, this`fifo, this`flag, this`interruptOn, this`sent
      ensures Safe() && Count(head, tail) <= old(Count(head, tail)) && old(sent) <= sent
      ensures SIZE - 1 - old(Count(head, tail)) <= free <= SIZE - 1 - Count(head, tail)
      ensures old(Live()) ==> Live()
    {
      hide Queue;
      var h := head;
      Interrupts();
      CountIs(h, tail);
      free := SIZE - 1 - Count(h, tail);
      Interrupts();
    }

    /** start_tx(): the flag is set by hand, so whatever the interrupt did since the
        bytes were published, it will run again for them. */
    method StartTx()
      requires Safe()
      modifies this`tail, this`fifo, this`flag, this`interruptOn, this`sent
      ensures Safe() && (enabled ==> Live()) && old(sent) <= sent
      ensures Count(head, tail) <= old(Count(head, tail))
      ensures !enabled ==> interruptOn == old(interruptOn) && flag == old(flag)
    {
      hide Count, Queue;
      var h := head;
      if enabled && h != tail {
        Interrupts();
        flag := true;
        Interrupts();
        interruptOn := true;
      }
    }

    /** tx_enqueue(): the copy is to slots the interrupt does not look at, until
        the head is published. */
    method Enqueue(source: array<u8>, length: nat)
      requires Safe() && length <= source.Length && source != ring
      requires length <= SIZE - 1 - Count(head, tail)
      modifies this`head, this`tail, this`fifo, this`flag, this`interruptOn, this`sent, this`accepted, ring
      ensures Safe() && (enabled ==> Live()) && old(sent) <= sent
      ensures accepted == old(accepted) + source[..length]
    {
      hide Queue, Count, Kicked;
      var next: nat := head;
      var index := 0;
      assert next == Slot(head + index);
      hide Slot;
      while index < length
        invariant index <= length <= SIZE - 1 - Count(head, tail) && Safe() && accepted == old(accepted) && old(sent) <= sent
        invariant next == Slot(head + index)
        invariant Queue(ring[..], head, index) == source[..index]
      {
        Interrupts();
        CopyByte(source[index], index);
        SlotAgain(head, index, 1);
        next := Slot(next + 1);
        Joined(ring[..], head, index, 1);
        index := index + 1;
      }
      Interrupts();
      Publish(next, length, source[..length]);
      Interrupts();
      StartTx();
    }

    // One byte of the copy.
    method CopyByte(value: u8, index: nat)
      requires Safe() && index < SIZE - 1 - Count(head, tail)
      modifies ring
      ensures Safe() && Queue(ring[..], head, index) == old(Queue(ring[..], head, index))
      ensures Queue(ring[..], Slot(head + index), 1) == [value]
    {
      var n := Count(head, tail);
      CountIs(head, tail);
      SlotAgain(tail, n, index);
      PutBeyond(ring[..], tail, n, n + index, value);
      PutBeyond(ring[..], head, index, index, value);
      ghost var after := ring[..][Slot(head + index) := value];
      ring[Slot(head + index)] := value;
      assert ring[..] == after;
      Single(after, Slot(head + index));
    }

    // The copied bytes join the queue at once.
    method Publish(next: nat, length: nat, ghost bytes: seq<u8>)
      requires Safe() && length <= SIZE - 1 - Count(head, tail) && next == Slot(head + length)
      requires Queue(ring[..], head, length) == bytes
      modifies this`head, this`accepted
      ensures Safe() && accepted == old(accepted) + bytes && head == next
    {
      hide Queue, Count, Slot;
      CountIs(head, tail);
      CountMore(head, tail, length);
      Joined(ring[..], tail, Count(head, tail), length);
      head := next;
      accepted := accepted + bytes;
    }

    /** uart1_tx_write(): all or nothing, and never refused what fitted at the call. */
    method Write(source: array<u8>, length: nat) returns (written: bool)
      requires Valid() && length <= source.Length && source != ring
      modifies this`head, this`tail, this`fifo, this`flag, this`interruptOn, this`sent, this`accepted, ring
      ensures Valid() && old(sent) <= sent
      ensures accepted == if written then old(accepted) + source[..length] else old(accepted)
      ensures enabled && length <= SIZE - 1 - old(Count(head, tail)) ==> written
      ensures !enabled && length > 0 ==> !written
    {
      hide Count, Queue;
      if length == 0 {
        return true;
      }
      if !enabled {
        return false;
      }
      var free := Free();
      if length > free {
        return false;
      }
      Enqueue(source, length);
      return true;
    }

    /** uart1_tx_write_some(): as many as fit. */
    method WriteSome(source: array<u8>, length: nat) returns (written: nat)
      requires Valid() && length <= source.Length && source != ring
      modifies this`head, this`tail, this`fifo, this`flag, this`interruptOn, this`sent, this`accepted, ring
      ensures Valid() && written <= length && old(sent) <= sent
      ensures accepted == old(accepted) + source[..written]
      ensures enabled && length <= SIZE - 1 - old(Count(head, tail)) ==> written == length
      ensures enabled && length > SIZE - 1 - old(Count(head, tail)) ==> written >= SIZE - 1 - old(Count(head, tail))
      ensures !enabled ==> written == 0
    {
      hide Count, Queue;
      if !enabled || length == 0 {
        return 0;
      }
      var space := Free();
      written := if length > space then space else length;
      if written != 0 {
        Enqueue(source, written);
      }
    }

    /** uart1_tx_poll(): the interrupt's work, with it masked. */
    method Poll()
      requires Valid()
      modifies this`tail, this`fifo, this`flag, this`interruptOn, this`sent
      ensures Valid() && accepted == old(accepted) && old(sent) <= sent
      ensures enabled && old(head != tail && |fifo| < FIFO_DEPTH) ==> Count(head, tail) < old(Count(head, tail))
    {
      hide Count, Queue;
      if !enabled {
        return;
      }
      var saved := interruptOn;
      interruptOn := false;
      Interrupts();
      FillMasked();
      Interrupts();
      if saved {
        interruptOn := true;
      }
      Interrupts();
      StartTx();
    }
  }

  // ---- Receive --------------------------------------------------------------------

  /** One thing the receiving hardware may hand over: a byte with its error flags,
      or an overrun of its own buffer. */
  datatype Event = Byte(value: u8, framing: bool, parity: bool) | Overrun

  datatype Errors = Errors(overrun: bool, overflow: bool, framing: bool, parity: bool)

  const NO_ERRORS: Errors := Errors(false, false, false, false)

  /** Every kind of error of the one is among those of the other. */
  predicate Among(e: Errors, f: Errors) {
    (e.overrun ==> f.overrun) && (e.overflow ==> f.overflow) && (e.framing ==> f.framing) && (e.parity ==> f.parity)
  }

  class Receiver {
    const ring: array<u8>
    var head: Index
    var tail: Index
    var errors: Errors
    // Since the last discard or recovery: every byte received, those that went
    // into the ring, and those taken out.
    ghost var received: seq<u8>
    ghost var accepted: seq<u8>
    ghost var popped: seq<u8>

    ghost function Queued(): seq<u8>
      reads this`head, this`tail, ring
      requires ring.Length == SIZE
    {
      Queue(ring[..], tail, Count(head, tail))
    }

    /** Bytes come out in the order they went in, and as long as no error is
        pending they are all the bytes there were. */
    ghost predicate Valid()
      reads this, ring
    {
      && ring.Length == SIZE
      && accepted == popped + Queued()
      && (errors == NO_ERRORS ==> accepted == received)
    }

    constructor ()
      ensures Valid() && errors == NO_ERRORS && received == [] && fresh(ring)
    {
      ring := new u8[SIZE];
      head, tail, errors, received, accepted, popped := 0, 0, NO_ERRORS, [], [], [];
    }

    // A byte into the ring, before the index that publishes it.
    method Put(value: u8)
      requires Valid() && Count(head, tail) < SIZE - 1
      modifies this`head, this`received, this`accepted, ring
      ensures Valid() && accepted == old(accepted) + [value] && received == old(received) + [value]
    {
      hide Queue, Count, Slot;
      ghost var n, after := Count(head, tail), ring[..][head := value];
      CountIs(head, tail);
      CountMore(head, tail, 1);
      PutBeyond(ring[..], tail, n, n, value);
      Joined(after, tail, n, 1);
      Single(after, head);
      ring[head] := value;
      assert ring[..] == after;
      head := Slot(head + 1);
      received := received + [value];
      accepted := accepted + [value];
    }

    /** One byte or overrun in _U1RXInterrupt(): a damaged byte, or one with no
        room, is dropped and leaves an error pending. */
    method Receive(event: Event)
      requires Valid()
      modifies this`head, this`errors, this`received, this`accepted, ring
      ensures Valid() && old(Queued()) <= Queued()
      ensures errors == NO_ERRORS ==> old(errors) == NO_ERRORS && event.Byte? && received == old(received) + [event.value]
      ensures Among(old(errors), errors) && received == if event.Byte? then old(received) + [event.value] else old(received)
      ensures event.Overrun? ==> errors == old(errors).(overrun := true)
      ensures event.Byte? && (event.framing || event.parity) ==>
                errors == old(errors).(framing := old(errors).framing || event.framing, parity := old(errors).parity || event.parity)
      ensures event.Byte? && !event.framing && !event.parity ==>
                if old(Count(head, tail)) < SIZE - 1 then accepted == old(accepted) + [event.value] && errors == old(errors)
                else accepted == old(accepted) && errors == old(errors).(overflow := true)
      ensures !(event.Byte? && !event.framing && !event.parity) ==> accepted == old(accepted)
    {
      hide Queue, Count, Slot;
      match event {
        case Overrun => errors := errors.(overrun := true);
        case Byte(value, framing, parity) =>
          if framing {
            errors := errors.(framing := true);
          }
          if parity {
            errors := errors.(parity := true);
          }
          if framing || parity {
            received := received + [value];
            return;
          }
          Full();
          if Slot(head + 1) == tail {
            errors := errors.(overflow := true);
            received := received + [value];
            return;
          }
          Put(value);
          assert Queued() == accepted[|popped|..];
      }
    }

    lemma Full()
      ensures Slot(head + 1) == tail <==> Count(head, tail) == SIZE - 1
      ensures Count(head, tail) <= SIZE - 1
    {
      CountIs(head, tail);
    }

    /** Any number of bytes and overruns, between two steps of the foreground. */
    method Interrupts()
      requires Valid()
      modifies this`head, this`errors, this`received, this`accepted, ring
      ensures Valid() && old(Queued()) <= Queued() && Among(old(errors), errors)
    {
      var events: nat := *;
      while events > 0
        invariant Valid() && old(Queued()) <= Queued()
        invariant Among(old(errors), errors)
      {
        hide Valid, Queued;
        var event: Event := *;
        Receive(event);
        events := events - 1;
      }
    }

    /** uart1_rx_pop(): the oldest byte, whatever comes in meanwhile. */
    method Pop() returns (byte: u8, taken: bool)
      requires Valid()
      modifies this`head, this`tail, this`errors, this`received, this`accepted, this`popped, ring
      ensures Valid() && popped == if taken then old(popped) + [byte] else old(popped)
      ensures old(Queued()) != [] ==> taken && byte == old(Queued())[0]
    {
      hide Queue, Count, Slot;
      byte := 0;
      var t := tail;
      Interrupts();
      CountIs(head, tail);
      if t == head {
        return byte, false;
      }
      Oldest();
      Interrupts();
      Oldest();
      byte := ring[t];
      Interrupts();
      Oldest();
      Release();
      return byte, true;
    }

    lemma Oldest()
      requires Valid() && Count(head, tail) > 0
      ensures Queued()[0] == ring[tail]
    {
      CountIs(head, tail);
      Popped(ring[..], head, tail);
    }

    // The slot of the oldest byte is given back.
    method Release()
      requires Valid() && Count(head, tail) > 0
      modifies this`tail, this`popped
      ensures Valid() && popped == old(popped) + [old(ring[tail])]
    {
      CountIs(head, tail);
      Popped(ring[..], head, tail);
      hide Queue, Count;
      popped := popped + [ring[tail]];
      tail := Slot(tail + 1);
    }

    /** uart1_rx_discard() */
    method Discard()
      requires Valid()
      modifies this`tail, this`received, this`accepted, this`popped
      ensures Valid() && head == tail && received == accepted == []
    {
      CountIs(head, head);
      tail := head;
      received, accepted, popped := [], [], [];
    }

    /** uart1_rx_recover(): with errors pending, the queue goes with them. */
    method Recover() returns (taken: Errors)
      requires Valid()
      modifies this`head, this`tail, this`errors, this`received, this`accepted, this`popped, ring
      ensures Valid()
      ensures taken != NO_ERRORS ==> errors == NO_ERRORS && head == tail && received == []
      ensures taken == NO_ERRORS <==> old(errors) == NO_ERRORS
      ensures taken == NO_ERRORS ==> tail == old(tail) && received == old(received) && errors == NO_ERRORS
      ensures Among(old(errors), taken)
    {
      hide Queue, Count;
      if errors == NO_ERRORS {
        return NO_ERRORS;
      }
      Interrupts();
      taken := errors;
      Discard();
      errors := NO_ERRORS;
    }
  }
}
