/** The SML receiver (common/sml.c): a byte at a time through a 248-byte buffer. */
module SmlReceiver {
  import opened MachineWords
  import opened Crc16
  import opened Scanner

  const MAGIC_1: u8 := 0xB5
  const MAGIC_2: u8 := 0x73
  const HEADER_BYTES: nat := 6
  const CRC_SIZE: nat := 2
  const MAX_PAYLOAD: nat := 240
  const MAX_FRAME: nat := 248

  function GetU16(high: u8, low: u8): u16 {
    var h: int := high;
    h * 256 + low
  }

  function FrameLength(s: seq<u8>): nat
    requires |s| >= HEADER_BYTES
  {
    HEADER_BYTES + GetU16(s[4], s[5]) + CRC_SIZE
  }

  predicate CrcGood(frame: seq<u8>)
    requires |frame| >= CRC_SIZE
  {
    CrcBytes(CRC_INIT, frame[..|frame| - 2]) == GetU16(frame[|frame| - 2], frame[|frame| - 1])
  }

  /** What the front of the buffer is: the checks of scan(), in its order. */
  function SmlJudge(s: seq<u8>): Verdict {
    if s == [] then Wait
    else if s[0] != MAGIC_1 || (|s| >= 2 && s[1] != MAGIC_2) then Reject
    else if |s| < HEADER_BYTES then Wait
    else if GetU16(s[4], s[5]) > MAX_PAYLOAD then Reject
    else if |s| < FrameLength(s) then Wait
    else if !CrcGood(s[..FrameLength(s)]) then Reject
    else Accept(FrameLength(s))
  }

  lemma JudgeIsStable()
    ensures Sound(SmlJudge) && Stable(SmlJudge)
  {
    hide CrcBytes;
    forall s: seq<u8>, t: seq<u8> | !SmlJudge(s).Wait? && s != []
      ensures SmlJudge(s + t) == SmlJudge(s)
    {
      if |s| >= HEADER_BYTES && FrameLength(s) <= |s| {
        assert (s + t)[..FrameLength(s)] == s[..FrameLength(s)];
      }
    }
  }

  datatype SmlFrame = SmlFrame(classId: u8, messageId: u8, payload: seq<u8>)

  /** A frame as the receiver hands it over. */
  function Opened(frame: seq<u8>): SmlFrame {
    if |frame| < HEADER_BYTES + CRC_SIZE then SmlFrame(0, 0, [])
    else SmlFrame(frame[2], frame[3], frame[HEADER_BYTES..|frame| - CRC_SIZE])
  }

  /** sml_crc(), over the first bytes of an array. */
  method Crc(start: u16, data: array<u8>, length: nat) returns (crc: u16)
    requires length <= data.Length
    ensures crc == CrcBytes(start, data[..length])
  {
    hide CrcByte;
    crc := start;
    for i := 0 to length
      invariant crc == CrcBytes(start, data[..i])
    {
      assert data[..i + 1][..i] == data[..i];
      crc := CrcByte(crc, data[i]);
    }
  }

  function OpenAll(frames: seq<seq<u8>>): seq<SmlFrame> {
    seq(|frames|, i requires 0 <= i < |frames| => Opened(frames[i]))
  }

  class SmlParser {
    const buffer: array<u8>
    var count: nat
    var consumed: nat
    var frames: nat
    var noiseBytes: nat
    // What has been pushed since the start (or the last timeout), and what
    // has been made of it.
    ghost var received: seq<u8>
    ghost var items: seq<Item>
    ghost var noiseBefore: nat

    /** The bytes not yet noise nor in a frame handed over. */
    ghost function Pending(): seq<u8>
      reads this, buffer
      requires buffer.Length == MAX_FRAME && consumed <= count <= MAX_FRAME
    {
      buffer[consumed..count]
    }

    ghost predicate Valid()
      reads this, buffer
    {
      && buffer.Length == MAX_FRAME && consumed <= count <= MAX_FRAME
      && (consumed == 0 ==> count == 0 || SmlJudge(Buffered()).Wait?)
      && Sound(SmlJudge) && Accounts(SmlJudge, received, items, Pending())
      && noiseBytes == noiseBefore + NoiseCount(items)
    }

    constructor ()
      ensures Valid() && received == [] && items == [] && fresh(buffer) && noiseBytes == frames == 0
    {
      buffer := new u8[MAX_FRAME];
      count, consumed, frames, noiseBytes := 0, 0, 0, 0;
      received, items, noiseBefore := [], [], 0;
      new;
      JudgeIsStable();
    }

    /** What is buffered. */
    ghost function Buffered(): seq<u8>
      reads this`count, buffer
      requires count <= buffer.Length
    {
      buffer[..count]
    }

    /** Everything received is accounted for, with no frame handed over still held. */
    ghost predicate Settled()
      reads this, buffer
    {
      && buffer.Length == MAX_FRAME && consumed == 0 && count <= MAX_FRAME && Sound(SmlJudge)
      && Accounts(SmlJudge, received, items, Buffered()) && noiseBytes == noiseBefore + NoiseCount(items)
    }

    lemma AllPending()
      requires buffer.Length == MAX_FRAME && consumed == 0 && count <= MAX_FRAME
      ensures Pending() == Buffered()
    {
      assert buffer[0..count] == buffer[..count];
    }

    /** drop(): the rest of the buffer moves down. */
    method Drop(bytes: nat)
      requires buffer.Length == MAX_FRAME && bytes <= count <= MAX_FRAME
      modifies this`count, buffer
      ensures count == old(count) - bytes && Buffered() == old(Buffered())[bytes..]
    {
      ghost var held := Buffered();
      count := count - bytes;
      forall i | 0 <= i < count { buffer[i] := buffer[i + bytes]; }
      forall i | 0 <= i < count
        ensures Buffered()[i] == held[bytes..][i]
      {
        assert buffer[i] == old(buffer[i + bytes]);
      }
    }

    // The checks of scan() on the front of the buffer.
    method Check() returns (verdict: Verdict)
      requires buffer.Length == MAX_FRAME && 0 < count <= MAX_FRAME
      ensures verdict == SmlJudge(Buffered()) && (verdict.Accept? ==> verdict.n >= HEADER_BYTES + CRC_SIZE)
    {
      hide CrcBytes;
      if buffer[0] != MAGIC_1 || (count >= 2 && buffer[1] != MAGIC_2) {
        return Reject;
      }
      if count < HEADER_BYTES {
        return Wait;
      }
      var length := GetU16(buffer[4], buffer[5]);
      if length > MAX_PAYLOAD {
        return Reject;
      }
      var total := HEADER_BYTES + length + CRC_SIZE;
      if count < total {
        return Wait;
      }
      assert buffer[..count][..total] == buffer[..total] && buffer[..total][..total - 2] == buffer[..total - 2];
      var crc := Crc(CRC_INIT, buffer, total - CRC_SIZE);
      return if crc != GetU16(buffer[total - 2], buffer[total - 1]) then Reject else Accept(total);
    }

    /** scan(): the first frame of what is buffered, everything before it dropped. */
    method Scan() returns (ok: bool, frame: SmlFrame)
      requires Settled()
      modifies this`count, this`consumed, this`frames, this`noiseBytes, this`items, buffer
      ensures Valid() && old(items) <= items && noiseBefore == old(noiseBefore)
      ensures OpenAll(Frames(items)) == old(OpenAll(Frames(items))) + (if ok then [frame] else [])
      ensures frames == old(frames) + (if ok then 1 else 0)
      ensures count - consumed <= old(count - consumed) && (ok ==> count - consumed < old(count - consumed))
      ensures !ok ==> Items(SmlJudge, received) == items && Rest(SmlJudge, received) == Pending()
    {
      hide SmlJudge, Accounts, Sound, Items, Rest, Flatten, Frames, NoiseCount, SmlParser.Buffered;
      frame := SmlFrame(0, 0, []);
      ok := false;
      assert items + [] == items && Frames(items) + [] == Frames(items);
      while count != 0
        invariant Settled() && !ok && noiseBefore == old(noiseBefore) && frames == old(frames)
        invariant old(items) <= items && Frames(items) == old(Frames(items)) && count <= old(count)
        decreases count
      {
        var verdict := Check();
        match verdict {
          case Reject => DropNoise();
          case Wait => break;
          case Accept(total) =>
            frame := TakeFrame(total);
            return true, frame;
        }
      }
      NoneFound();
    }

    // Nothing more is found in what is buffered.
    lemma NoneFound()
      requires Settled() && (count == 0 || SmlJudge(Buffered()).Wait?)
      ensures Valid() && Items(SmlJudge, received) == items && Rest(SmlJudge, received) == Pending()
    {
      hide SmlJudge, Accounts, Sound, Items, Rest, NoiseCount;
      AllPending();
      Waiting(SmlJudge, received, items, Buffered());
    }

    // All checks passed: the frame is handed over, and stays until released.
    method TakeFrame(total: nat) returns (frame: SmlFrame)
      requires Settled() && count > 0 && SmlJudge(Buffered()) == Accept(total) && HEADER_BYTES + CRC_SIZE <= total
      modifies this`consumed, this`frames, this`items
      ensures 0 < consumed <= count && Valid() && old(items) <= items
      ensures OpenAll(Frames(items)) == old(OpenAll(Frames(items))) + [frame] && frames == old(frames) + 1
    {
      hide SmlJudge, Accounts, Sound, Items, Rest, Flatten, Frames, NoiseCount, Opened;
      ghost var held, before := Buffered(), OpenAll(Frames(items));
      AcceptFrame(SmlJudge, received, items, held, total);
      SubSlice(buffer, 0, count, total, count);
      assert buffer[0..count] == held && buffer[0..total] == held[..total];
      frame := TheFrame(total);
      consumed := total;
      frames := frames + 1;
      items := items + [Frame(held[..total])];
      assert OpenAll(Frames(items)) == before + [frame];
    }

    // The frame in the buffer, as it is handed over.
    method TheFrame(total: nat) returns (frame: SmlFrame)
      requires HEADER_BYTES + CRC_SIZE <= total <= count <= buffer.Length
      ensures frame == Opened(Buffered()[..total])
    {
      frame := SmlFrame(buffer[2], buffer[3], buffer[HEADER_BYTES..total - CRC_SIZE]);
      ghost var x := Buffered()[..total];
      assert x[HEADER_BYTES..total - CRC_SIZE] == buffer[HEADER_BYTES..total - CRC_SIZE];
    }

    // A check failed: one byte is noise.
    method DropNoise()
      requires Settled() && count > 0 && SmlJudge(Buffered()).Reject?
      modifies this`count, this`noiseBytes, this`items, buffer
      ensures Settled() && count == old(count) - 1 && old(items) <= items && Frames(items) == old(Frames(items))
    {
      hide SmlJudge, Accounts, Sound, Items, Rest, Flatten, Frames, NoiseCount;
      ghost var held := Buffered();
      RejectByte(SmlJudge, received, items, held);
      hide SmlParser.Buffered;
      items := items + [Noise(held[0])];
      noiseBytes := noiseBytes + 1;
      Drop(1);
    }

    /** release(): the frame handed over last is done with. */
    method Release()
      requires Valid()
      modifies this`count, this`consumed, buffer
      ensures Settled() && count < MAX_FRAME && Buffered() == old(Pending())
    {
      hide SmlJudge, Accounts, Sound, NoiseCount;
      if consumed == 0 {
        AllPending();
        WaitingFits();
        return;
      }
      assert Buffered()[consumed..] == Pending();
      Drop(consumed);
      consumed := 0;
    }

    // What is waited on leaves room for a byte.
    lemma WaitingFits()
      requires buffer.Length == MAX_FRAME && count <= MAX_FRAME
      ensures count > 0 && SmlJudge(Buffered()).Wait? ==> count < MAX_FRAME
    {
      hide CrcBytes;
    }

    /** sml_parser_push() */
    method Push(byte: u8) returns (ok: bool, frame: SmlFrame)
      requires Valid()
      modifies this, buffer
      ensures Valid() && received == old(received) + [byte] && old(items) <= items && noiseBefore == old(noiseBefore)
      ensures OpenAll(Frames(items)) == old(OpenAll(Frames(items))) + (if ok then [frame] else [])
      ensures frames == old(frames) + (if ok then 1 else 0)
      ensures !ok ==> Items(SmlJudge, received) == items && Rest(SmlJudge, received) == Pending()
    {
      hide SmlJudge, Accounts, Sound, Items, Rest, Flatten, Frames, NoiseCount;
      JudgeIsStable();
      AccountsByte(SmlJudge, received, items, Pending(), byte);
      Release();
      Put(byte);
      received := received + [byte];
      ok, frame := Scan();
    }

    method Put(byte: u8)
      requires count < buffer.Length
      modifies this`count, buffer
      ensures count == old(count) + 1 && Buffered() == old(Buffered()) + [byte]
    {
      buffer[count] := byte;
      count := count + 1;
    }

    /** sml_parser_next() */
    method Next() returns (ok: bool, frame: SmlFrame)
      requires Valid()
      modifies this`count, this`consumed, this`frames, this`noiseBytes, this`items, buffer
      ensures Valid() && old(items) <= items && noiseBefore == old(noiseBefore)
      ensures OpenAll(Frames(items)) == old(OpenAll(Frames(items))) + (if ok then [frame] else [])
      ensures frames == old(frames) + (if ok then 1 else 0)
      ensures count - consumed <= old(count - consumed) && (ok ==> count - consumed < old(count - consumed))
      ensures !ok ==> Items(SmlJudge, received) == items && Rest(SmlJudge, received) == Pending()
    {
      hide SmlJudge, Accounts, Sound, Items, Rest, Flatten, Frames, NoiseCount;
      Release();
      ok, frame := Scan();
    }

    /** sml_parser_timeout(): what is buffered is noise, and the account starts again. */
    method Timeout() returns (dropped: bool)
      requires Valid()
      modifies this, buffer
      ensures Valid() && count == 0 && consumed == 0 && received == [] && items == [] && frames == old(frames)
      ensures noiseBytes == old(noiseBytes) + |old(Pending())| && dropped == (old(Pending()) != [])
    {
      hide SmlJudge, Sound, Accounts, NoiseCount;
      Release();
      dropped := count != 0;
      noiseBytes := noiseBytes + count;
      count := 0;
      received, items, noiseBefore := [], [], noiseBytes;
      NothingYet();
    }

    lemma NothingYet()
      ensures Sound(SmlJudge) && Accounts(SmlJudge, [], [], []) && NoiseCount([]) == 0
    {
      JudgeIsStable();
      hide SmlJudge, Sound;
    }
  }

  // One byte in, and every frame it completes out: push, then next until it says no.
  method PushAndDrain(parser: SmlParser, byte: u8) returns (frames: seq<SmlFrame>)
    requires parser.Valid()
    modifies parser, parser.buffer
    ensures parser.Valid() && parser.received == old(parser.received) + [byte] && parser.noiseBefore == old(parser.noiseBefore)
    ensures OpenAll(Frames(parser.items)) == old(OpenAll(Frames(parser.items))) + frames
    ensures Items(SmlJudge, parser.received) == parser.items && Rest(SmlJudge, parser.received) == parser.Pending()
  {
    hide SmlJudge, Accounts, Sound, Items, Rest, Flatten, NoiseCount, Frames, Opened;
    frames := [];
    var ok, frame := parser.Push(byte);
    while ok
      invariant parser.Valid() && parser.received == old(parser.received) + [byte] && parser.noiseBefore == old(parser.noiseBefore)
      invariant OpenAll(Frames(parser.items)) == old(OpenAll(Frames(parser.items))) + (if ok then frames + [frame] else frames)
      invariant !ok ==> Items(SmlJudge, parser.received) == parser.items && Rest(SmlJudge, parser.received) == parser.Pending()
      decreases parser.count - parser.consumed, ok
    {
      frames := frames + [frame];
      ok, frame := parser.Next();
    }
  }

  lemma NothingScanned(v: Rule)
    requires Sound(v)
    ensures Items(v, []) == [] && Rest(v, []) == [] && Frames([]) == []
  {
  }

  /** Fed a byte at a time, drained after each: exactly the frames of the batch
      scan of the whole stream, in order; every other byte is counted as noise
      or still held. */
  method Receive(parser: SmlParser, stream: seq<u8>) returns (frames: seq<SmlFrame>)
    requires parser.Valid() && parser.received == [] && parser.items == []
    modifies parser, parser.buffer
    ensures parser.Valid() && Sound(SmlJudge) && parser.received == stream
    ensures frames == OpenAll(Frames(Items(SmlJudge, stream)))
    ensures parser.Pending() == Rest(SmlJudge, stream)
    ensures parser.noiseBytes == old(parser.noiseBytes) + NoiseCount(Items(SmlJudge, stream))
  {
    hide SmlJudge, Accounts, Sound, Items, Rest, Flatten, NoiseCount, Frames, Opened;
    frames := [];
    NothingScanned(SmlJudge);
    NothingHeld(parser);
    for n := 0 to |stream|
      invariant parser.Valid() && parser.received == stream[..n]
      invariant parser.noiseBefore == old(parser.noiseBytes)
      invariant Items(SmlJudge, parser.received) == parser.items && Rest(SmlJudge, parser.received) == parser.Pending()
      invariant frames == OpenAll(Frames(parser.items))
    {
      assert stream[..n + 1] == stream[..n] + [stream[n]];
      var more := PushAndDrain(parser, stream[n]);
      frames := frames + more;
    }
    assert stream[..|stream|] == stream;
  }

  lemma NothingHeld(parser: SmlParser)
    requires parser.Valid() && parser.received == [] && parser.items == []
    ensures parser.Pending() == [] && parser.noiseBytes == parser.noiseBefore
  {
  }
}
