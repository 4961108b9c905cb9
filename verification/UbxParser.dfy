/** UBX frame assembly (gnss/ubx_parser.c): a start/end window over a buffer,
    compacted only when an append finds it at the end. */
module UbxReceiver {
  import opened MachineWords
  import opened Scanner

  const SYNC_1: u8 := 0xB5
  const SYNC_2: u8 := 0x62
  const HEADER_LENGTH: nat := 6
  const FRAME_OVERHEAD: nat := 8
  const MAX_PAYLOAD: nat := 512
  const BUFFER_BYTES: nat := 520
  const TIMEOUT_MS: nat := 50

  // ---- Expected messages ----------------------------------------------------

  datatype MessageRule = NoRule | MessageRule(base: nat, step: nat)

  /** find_rule(): NAV, TIM, ACK, MON-VER and CFG-VALGET. */
  function FindRule(classId: u8, messageId: u8): MessageRule {
    if classId == 0x01 then
      if messageId == 0x02 then MessageRule(28, 0) else if messageId == 0x03 then MessageRule(16, 0)
      else if messageId == 0x21 then MessageRule(20, 0) else if messageId == 0x22 then MessageRule(20, 0)
      else if messageId == 0x26 then MessageRule(24, 0) else if messageId == 0x61 then MessageRule(4, 0) else NoRule
    else if classId == 0x0D then
      if messageId == 0x01 then MessageRule(16, 0) else if messageId == 0x03 then MessageRule(28, 0) else NoRule
    else if classId == 0x05 then
      if messageId == 0x01 then MessageRule(2, 0) else if messageId == 0x00 then MessageRule(2, 0) else NoRule
    else if classId == 0x0A && messageId == 0x04 then MessageRule(40, 30)
    else if classId == 0x06 && messageId == 0x8B then MessageRule(4, 1)
    else NoRule
  }

  function LengthMatches(rule: MessageRule, length: nat): bool
    requires rule.MessageRule?
  {
    if rule.step == 0 then length == rule.base
    else length >= rule.base && (length - rule.base) % rule.step == 0
  }

  function Plausible(rule: MessageRule, length: nat): bool {
    length <= MAX_PAYLOAD && (rule == NoRule || LengthMatches(rule, length))
  }

  /** The widths of the fields of a message of one length, as they follow on the wire. */
  function Fields(classId: u8, messageId: u8): seq<nat> {
    if classId == 0x01 && messageId == 0x02 then [4, 4, 4, 4, 4, 4, 4]                     // NAV-POSLLH
    else if classId == 0x01 && messageId == 0x03 then [4, 1, 1, 1, 1, 4, 4]                // NAV-STATUS
    else if classId == 0x01 && messageId == 0x21 then [4, 4, 4, 2, 1, 1, 1, 1, 1, 1]       // NAV-TIMEUTC
    else if classId == 0x01 && messageId == 0x22 then [4, 4, 4, 4, 4]                      // NAV-CLOCK
    else if classId == 0x01 && messageId == 0x26 then [4, 1, 3, 1, 1, 1, 1, 4, 2, 2, 3, 1] // NAV-TIMELS
    else if classId == 0x01 && messageId == 0x61 then [4]                                  // NAV-EOE
    else if classId == 0x0D && messageId == 0x01 then [4, 4, 4, 2, 1, 1]                   // TIM-TP
    else if classId == 0x0D && messageId == 0x03 then [1, 1, 2, 2, 2, 4, 4, 4, 4, 4]       // TIM-TM2
    else if classId == 0x05 && messageId <= 0x01 then [1, 1]                               // ACK-NAK, ACK-ACK
    else []
  }

  function Total(widths: seq<nat>): nat {
    if widths == [] then 0 else widths[0] + Total(widths[1..])
  }

  /** A header is plausible if its payload fits the buffer, and is as long as the fields
      of the message; MON-VER has extensions of 30 bytes after its 40, and CFG-VALGET
      anything after its header. */
  lemma PlausibleLengths(classId: u8, messageId: u8, n: nat)
    ensures Plausible(FindRule(classId, messageId), n) <==>
              n <= 512 && if Fields(classId, messageId) != [] then n == Total(Fields(classId, messageId))
                          else if classId == 0x0A && messageId == 0x04 then exists k: nat :: n == 40 + 30 * k
                          else if classId == 0x06 && messageId == 0x8B then n >= 4
                          else true
  {
    hide LengthMatches, Total;
    var fields, rule := Fields(classId, messageId), FindRule(classId, messageId);
    FieldsAddUp(classId, messageId);
    hide FindRule, Fields;
    if rule.MessageRule? {
      Lengths(rule, n);
    }
  }

  lemma FieldsAddUp(classId: u8, messageId: u8)
    ensures var rule, fields := FindRule(classId, messageId), Fields(classId, messageId);
      if fields != [] then rule == MessageRule(Total(fields), 0)
      else if classId == 0x0A && messageId == 0x04 then rule == MessageRule(40, 30)
      else if classId == 0x06 && messageId == 0x8B then rule == MessageRule(4, 1)
      else rule == NoRule
  {
    LongTotals();
    Totals();
    hide Total;
  }

  lemma LongTotals()
    ensures Total([4, 4, 4, 2, 1, 1, 1, 1, 1, 1]) == 20 && Total([4, 1, 3, 1, 1, 1, 1, 4, 2, 2, 3, 1]) == 24
    ensures Total([1, 1, 2, 2, 2, 4, 4, 4, 4, 4]) == 28
  {
  }

  lemma Totals()
    ensures Total([4, 4, 4, 4, 4, 4, 4]) == 28 && Total([4, 1, 1, 1, 1, 4, 4]) == 16 && Total([4, 4, 4, 4, 4]) == 20
    ensures Total([4, 4, 4, 2, 1, 1]) == 16 && Total([4]) == 4 && Total([1, 1]) == 2
  {
  }

  lemma Lengths(rule: MessageRule, n: nat)
    requires rule.MessageRule? && rule.step in {0, 1, 30}
    ensures rule.step == 0 ==> (LengthMatches(rule, n) <==> n == rule.base)
    ensures rule.step == 1 ==> (LengthMatches(rule, n) <==> n >= rule.base)
    ensures rule.step == 30 ==> (LengthMatches(rule, n) <==> exists k: nat :: n == rule.base + 30 * k)
  {
    if n >= rule.base {
      var k := (n - rule.base) / 30;
      assert n - rule.base == 30 * k + (n - rule.base) % 30;
    }
  }

  // ---- The batch rule -------------------------------------------------------

  /** The Fletcher checksum: CK_A sums the bytes, CK_B the sums. */
  function Checksum(s: seq<u8>): (u8, u8)
    decreases |s|
  {
    if |s| == 0 then (0, 0)
    else
      var (a, b) := Checksum(s[..|s| - 1]);
      var a': u8 := (a as int + s[|s| - 1]) % 256;
      (a', (b as int + a') % 256)
  }

  function Sum(s: seq<u8>): nat {
    if s == [] then 0 else s[0] + Sum(s[1..])
  }

  /** Each byte as often as there are bytes from it on. */
  function Weighted(s: seq<u8>): nat {
    if s == [] then 0 else
      var first: nat := s[0];
      |s| * first + Weighted(s[1..])
  }

  lemma {:induction false} SumNext(s: seq<u8>, b: u8)
    ensures Sum(s + [b]) == Sum(s) + b
    ensures Weighted(s + [b]) == Weighted(s) + Sum(s) + b
  {
    if s == [] {
      assert [b][1..] == [] && Sum([b]) == b && Weighted([b]) == b;
    } else {
      var first: nat := s[0];
      assert (s + [b])[1..] == s[1..] + [b];
      SumNext(s[1..], b);
      assert (|s| + 1) * first == |s| * first + first;
    }
  }

  /** CK_A is the sum of the bytes, and CK_B the sum weighted by how many bytes are
      left, the first the most, both modulo 256. */
  lemma {:induction false} ChecksumIs(s: seq<u8>)
    ensures Checksum(s) == (Sum(s) % 256, Weighted(s) % 256)
  {
    if s != [] {
      var n := |s| - 1;
      ChecksumIs(s[..n]);
      SumNext(s[..n], s[n]);
      assert s == s[..n] + [s[n]];
      SumModulo(Sum(s[..n]), s[n]);
      SumModulo(Weighted(s[..n]), Sum(s));
      hide Sum, Weighted;
    }
  }

  lemma Reduced(a: nat, b: nat)
    ensures (a % 256 + b) % 256 == (a + b) % 256
  {
    var q, r := a / 256, a % 256 + b;
    assert a + b == (q + r / 256) * 256 + r % 256;
    Quotient(a + b, 256, q + r / 256);
  }

  lemma SumModulo(a: nat, b: nat)
    ensures (a % 256 + b) % 256 == (a + b) % 256 && (a % 256 + b % 256) % 256 == (a + b) % 256
  {
    Reduced(a, b);
    Reduced(b, a % 256);
  }

  function PayloadLength(s: seq<u8>): nat
    requires |s| >= HEADER_LENGTH
  {
    var high: int := s[5];
    s[4] + high * 256
  }

  predicate ChecksumGood(frame: seq<u8>)
    requires |frame| >= FRAME_OVERHEAD
  {
    Checksum(frame[2..|frame| - 2]) == (frame[|frame| - 2], frame[|frame| - 1])
  }

  /** What the front of the window is: the checks of process_frames(), in its order. */
  function UbxJudge(s: seq<u8>): Verdict {
    if s == [] then Wait
    else if s[0] != SYNC_1 then Reject
    else if |s| < 2 then Wait
    else if s[1] != SYNC_2 then Reject
    else if |s| < HEADER_LENGTH then Wait
    else
      var length := PayloadLength(s);
      if !Plausible(FindRule(s[2], s[3]), length) then Reject
      else if |s| < length + FRAME_OVERHEAD then Wait
      else if !ChecksumGood(s[..length + FRAME_OVERHEAD]) then Reject
      else Accept(length + FRAME_OVERHEAD)
  }

  /** The same once the stream has gone quiet: nothing waited on will complete. */
  function FlushJudge(s: seq<u8>): Verdict {
    if s != [] && UbxJudge(s).Wait? then Reject else UbxJudge(s)
  }

  lemma JudgesAreSound()
    ensures Sound(UbxJudge) && Stable(UbxJudge) && Sound(FlushJudge)
    ensures forall s: seq<u8> :: UbxJudge(s).Wait? ==> |s| < BUFFER_BYTES
  {
    hide Checksum, FindRule;
    forall s: seq<u8>, t: seq<u8> | !UbxJudge(s).Wait? && s != []
      ensures UbxJudge(s + t) == UbxJudge(s)
    {
      if |s| >= HEADER_LENGTH && PayloadLength(s) + FRAME_OVERHEAD <= |s| {
        assert (s + t)[..PayloadLength(s) + FRAME_OVERHEAD] == s[..PayloadLength(s) + FRAME_OVERHEAD];
      }
    }
  }

  /** A flush leaves nothing, whatever was held. */
  lemma {:induction false} FlushEmpties(s: seq<u8>)
    requires Sound(FlushJudge)
    ensures Rest(FlushJudge, s) == []
    decreases |s|
  {
    hide UbxJudge;
    if s != [] {
      assert !FlushJudge(s).Wait?;
      match FlushJudge(s)
      case Reject => FlushEmpties(s[1..]);
      case Accept(n) => FlushEmpties(s[n..]);
    }
  }

  datatype UbxMessage = UbxMessage(classId: u8, messageId: u8, payload: seq<u8>)

  function Opened(frame: seq<u8>): seq<UbxMessage> {
    if |frame| < FRAME_OVERHEAD || FindRule(frame[2], frame[3]) == NoRule then []
    else [UbxMessage(frame[2], frame[3], frame[HEADER_LENGTH..|frame| - 2])]
  }

  /** What is dispatched: the frames of expected messages; others are skipped whole. */
  function Dispatched(frames: seq<seq<u8>>): seq<UbxMessage> {
    if frames == [] then [] else Opened(frames[0]) + Dispatched(frames[1..])
  }

  lemma {:induction false} DispatchedNext(frames: seq<seq<u8>>, frame: seq<u8>)
    ensures Dispatched(frames + [frame]) == Dispatched(frames) + Opened(frame)
  {
    hide Opened;
    if frames == [] {
      assert [] + [frame] == [frame] && Dispatched([]) == [];
    } else {
      assert (frames + [frame])[1..] == frames[1..] + [frame];
      DispatchedNext(frames[1..], frame);
    }
  }

  /** ubx_checksum(), over part of an array. */
  method ComputeChecksum(source: array<u8>, from: nat, length: nat) returns (a: u8, b: u8)
    requires from + length <= source.Length
    ensures (a, b) == Checksum(source[from..from + length])
  {
    a, b := 0, 0;
    for i := 0 to length
      invariant (a, b) == Checksum(source[from..from + i])
    {
      assert source[from..from + i + 1][..i] == source[from..from + i];
      a := (a as int + source[from + i]) % 256;
      b := (b as int + a) % 256;
    }
  }

  lemma OpenedIs(frame: seq<u8>, rule: MessageRule)
    requires |frame| >= FRAME_OVERHEAD && rule == FindRule(frame[2], frame[3])
    ensures Opened(frame) == if rule == NoRule then [] else [UbxMessage(frame[2], frame[3], frame[HEADER_LENGTH..|frame| - 2])]
  {
  }

  class UbxParser {
    const buffer: array<u8>
    // The window is buffer[start..end].
    var start: nat
    var end: nat
    var lastByteMs: u32
    // What the handler has been called with.
    var handled: seq<UbxMessage>
    // Since the last reset or flush: the bytes fed, and what became of them.
    ghost var received: seq<u8>
    ghost var items: seq<Item>
    ghost var handledBefore: seq<UbxMessage>

    ghost function Pending(): seq<u8>
      reads this, buffer
      requires start <= end <= buffer.Length
    {
      buffer[start..end]
    }

    ghost predicate Window()
      reads this
    {
      buffer.Length == BUFFER_BYTES && start <= end <= BUFFER_BYTES
    }

    /** Between calls: the dispatched messages are those of a batch scan of all
        that was fed, and what is held is what that scan waits on. */
    ghost predicate Valid()
      reads this, buffer
    {
      && Window() && Sound(UbxJudge)
      && items == Items(UbxJudge, received) && Pending() == Rest(UbxJudge, received)
      && handled == handledBefore + Dispatched(Frames(items))
      && end - start < BUFFER_BYTES
    }

    constructor ()
      ensures Valid() && received == [] && handled == [] && fresh(buffer)
    {
      buffer := new u8[BUFFER_BYTES];
      start, end, lastByteMs, handled, received, items, handledBefore := 0, 0, 0, [], [], [], [];
      new;
      JudgesAreSound();
    }

    /** consume(): only the window moves. */
    method Consume(count: nat)
      requires Window() && 0 < count <= end - start
      modifies this`start, this`end
      ensures Window() && Pending() == old(Pending())[count..] && end - start == old(end - start) - count
    {
      start := start + count;
      if start >= end {
        start, end := 0, 0;
      }
    }

    /** append(): compacts when the window has reached the end of the buffer. */
    method Append(byte: u8)
      requires Window() && end - start < BUFFER_BYTES
      modifies this`start, this`end, buffer
      ensures Window() && Pending() == old(Pending()) + [byte]
    {
      if end == BUFFER_BYTES {
        var count := end - start;
        forall i | 0 <= i < count { buffer[i] := buffer[start + i]; }
        start, end := 0, count;
      }
      buffer[end] := byte;
      end := end + 1;
    }

    // One byte of the window rejected.
    method DropOne(ghost v: Rule)
      requires Window() && start < end && Sound(v) && Accounts(v, received, items, Pending()) && v(Pending()).Reject?
      modifies this`start, this`end, this`items
      ensures Window() && Accounts(v, received, items, Pending()) && Frames(items) == old(Frames(items))
      ensures end - start == old(end - start) - 1
    {
      hide Accounts, Sound, Frames;
      RejectByte(v, received, items, Pending());
      items := items + [Noise(buffer[start])];
      Consume(1);
    }

    method ChecksumMatches(frameLength: nat) returns (good: bool)
      requires Window() && FRAME_OVERHEAD <= frameLength <= end - start
      ensures good == ChecksumGood(buffer[start..start + frameLength])
    {
      hide Checksum;
      SubSlice(buffer, start, start + frameLength, 2, frameLength - 2);
      var a, b := ComputeChecksum(buffer, start + 2, frameLength - 4);
      good := a == buffer[start + frameLength - 2] && b == buffer[start + frameLength - 1];
    }

    // A frame at the front: dispatched if it is one to expect, consumed whole.
    method Take(ghost v: Rule, frameLength: nat, rule: MessageRule)
      requires Window() && FRAME_OVERHEAD <= frameLength <= end - start && Sound(v)
      requires Accounts(v, received, items, Pending()) && v(Pending()) == Accept(frameLength)
      requires rule == FindRule(buffer[start + 2], buffer[start + 3])
      requires handled == handledBefore + Dispatched(Frames(items))
      modifies this`start, this`end, this`items, this`handled
      ensures Window() && end - start == old(end - start) - frameLength
      ensures Accounts(v, received, items, Pending()) && handled == handledBefore + Dispatched(Frames(items))
    {
      hide Accounts, Sound, Frames, FindRule, Dispatched, Opened;
      ghost var frame := Pending()[..frameLength];
      AcceptFrame(v, received, items, Pending(), frameLength);
      DispatchedNext(Frames(items), frame);
      OpenedIs(frame, rule);
      if rule != NoRule {
        var payload := buffer[start + HEADER_LENGTH..start + frameLength - 2];
        handled := handled + [UbxMessage(buffer[start + 2], buffer[start + 3], payload)];
        SubSlice(buffer, start, end, 0, frameLength);
        SubSlice(buffer, start, start + frameLength, HEADER_LENGTH, frameLength - 2);
      }
      items := items + [Frame(frame)];
      Consume(frameLength);
    }

    // A candidate all here: taken if its checksum is right, else a byte rejected.
    method TakeChecked(ghost v: Rule, frameLength: nat, rule: MessageRule)
      requires Window() && FRAME_OVERHEAD <= frameLength <= end - start && Sound(v)
      requires Accounts(v, received, items, Pending()) && handled == handledBefore + Dispatched(Frames(items))
      requires v(Pending()) == if ChecksumGood(Pending()[..frameLength]) then Accept(frameLength) else Reject
      requires rule == FindRule(buffer[start + 2], buffer[start + 3])
      modifies this`start, this`end, this`items, this`handled
      ensures Window() && end - start < old(end - start)
      ensures Accounts(v, received, items, Pending()) && handled == handledBefore + Dispatched(Frames(items))
    {
      hide Accounts, Sound, Frames, ChecksumGood, FindRule, Dispatched, Opened;
      SubSlice(buffer, start, end, 0, frameLength);
      var good := ChecksumMatches(frameLength);
      if !good {
        DropOne(v);
        return;
      }
      Take(v, frameLength, rule);
    }

    /** process_frames(): the batch scan of the window, frames dispatched as found. */
    method ProcessFrames(flush: bool, ghost v: Rule)
      requires Window() && Sound(v) && v == (if flush then FlushJudge else UbxJudge)
      requires Accounts(v, received, items, Pending()) && handled == handledBefore + Dispatched(Frames(items))
      modifies this`start, this`end, this`items, this`handled
      ensures Window() && end - start <= old(end - start)
      ensures items == Items(v, received) && Pending() == Rest(v, received)
      ensures handled == handledBefore + Dispatched(Frames(items))
      ensures Pending() == [] || v(Pending()).Wait?
    {
      hide Accounts, Sound, Frames, Checksum, FindRule, Items, Rest, Dispatched, Opened;
      while end - start > 0
        invariant Window() && end - start <= old(end - start)
        invariant Accounts(v, received, items, Pending()) && handled == handledBefore + Dispatched(Frames(items))
        decreases end - start
      {
        var available := end - start;
        if buffer[start] != SYNC_1 {
          DropOne(v);
          continue;
        }
        if available < 2 {
          if flush {
            DropOne(v);
            continue;
          }
          break;
        }
        if buffer[start + 1] != SYNC_2 {
          DropOne(v);
          continue;
        }
        if available < HEADER_LENGTH {
          if flush {
            DropOne(v);
            continue;
          }
          break;
        }
        var classId, messageId := buffer[start + 2], buffer[start + 3];
        var length := PayloadLength(buffer[start..start + HEADER_LENGTH]);
        var rule := FindRule(classId, messageId);
        if !Plausible(rule, length) {
          DropOne(v);
          continue;
        }
        var frameLength := length + FRAME_OVERHEAD;
        if available < frameLength {
          if flush {
            DropOne(v);
            continue;
          }
          break;
        }
        TakeChecked(v, frameLength, rule);
      }
      Waiting(v, received, items, Pending());
    }

    /** ubx_parser_reset() */
    method Reset()
      requires Valid()
      modifies this`start, this`end, this`received, this`items, this`handledBefore
      ensures Valid() && Pending() == [] && received == [] && handledBefore == handled
    {
      start, end := 0, 0;
      received, items, handledBefore := [], [], handled;
    }

    /** ubx_parser_feed() */
    method Feed(byte: u8, nowMs: u32)
      requires Valid()
      modifies this, buffer
      ensures Valid() && received == old(received) + [byte] && handledBefore == old(handledBefore) && lastByteMs == nowMs
    {
      hide Accounts, Sound, Frames, Checksum, FindRule, Items, Rest, Dispatched, UbxJudge;
      JudgesAreSound();
      Resume(byte);
      lastByteMs := nowMs;
      Append(byte);
      received := received + [byte];
      ProcessFrames(false, UbxJudge);
    }

    lemma Resume(byte: u8)
      requires Valid() && Stable(UbxJudge)
      ensures Accounts(UbxJudge, received + [byte], items, Pending() + [byte])
    {
      hide UbxJudge;
      ScanProper(UbxJudge, received);
      ScanRest(UbxJudge, received);
      AccountsByte(UbxJudge, received, items, Pending(), byte);
    }

    /** ubx_parser_check_timeout(): once quiet for long enough, what is held is
        scanned as if nothing more could come, and the window is left empty. */
    method CheckTimeout(nowMs: u32)
      requires Valid()
      modifies this, buffer
      ensures Valid() && Sound(FlushJudge)
      ensures old(Pending()) != [] && Wrap32(nowMs - lastByteMs) >= TIMEOUT_MS ==>
        && Pending() == [] && received == [] && lastByteMs == old(lastByteMs)
        && handled == old(handled) + Dispatched(Frames(Items(FlushJudge, old(Pending()))))
      ensures !(old(Pending()) != [] && Wrap32(nowMs - lastByteMs) >= TIMEOUT_MS) ==>
        Pending() == old(Pending()) && received == old(received) && handled == old(handled)
    {
      hide Accounts, Frames, Checksum, FindRule, Items, Rest, Dispatched, UbxJudge, FlushJudge;
      JudgesAreSound();
      if end - start > 0 && Wrap32(nowMs - lastByteMs) >= TIMEOUT_MS {
        received, items, handledBefore := Pending(), [], handled;
        Afresh(FlushJudge, received);
        ProcessFrames(true, FlushJudge);
        FlushEmpties(received);
        received, items, handledBefore := [], [], handled;
        Afresh(UbxJudge, []);
      }
    }
  }

  lemma Afresh(v: Rule, held: seq<u8>)
    requires Sound(v)
    ensures Accounts(v, held, [], held) && Frames([]) == [] && Dispatched([]) == []
    ensures held == [] ==> Items(v, held) == [] && Rest(v, held) == []
  {
    assert Flatten([]) + held == held;
  }

  /** However a stream is cut into calls, what has been dispatched is the batch
      scan's messages, in order. */
  method Stream(parser: UbxParser, stream: seq<u8>, nowMs: u32)
    requires parser.Valid() && parser.received == [] && parser.handled == parser.handledBefore
    modifies parser, parser.buffer
    ensures parser.Valid() && Sound(UbxJudge)
    ensures parser.handled == old(parser.handled) + Dispatched(Frames(Items(UbxJudge, stream)))
    ensures parser.Pending() == Rest(UbxJudge, stream)
  {
    hide Accounts, Sound, Frames, Items, Rest, Dispatched, UbxJudge;
    for n := 0 to |stream|
      invariant parser.Valid() && parser.received == stream[..n] && parser.handledBefore == old(parser.handledBefore)
    {
      assert stream[..n + 1] == stream[..n] + [stream[n]];
      parser.Feed(stream[n], nowMs);
    }
    assert stream[..|stream|] == stream;
  }
}
