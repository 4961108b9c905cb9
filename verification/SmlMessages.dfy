/** The SML message table (common/sml.c), frames built from it, and their round
    trip through the receiver. */
module SmlMessages {
  import opened MachineWords
  import opened Crc16
  import opened Scanner
  import opened SmlReceiver
  import opened SmlCodec

  // ---- The table ------------------------------------------------------------

  /** Fields, some of them repeated. */
  function Fields(head: Layout, repeated: Layout, times: nat, tail: Layout): Layout {
    head + Times(repeated, times) + tail
  }

  function Times(fields: Layout, n: nat): Layout {
    if n == 0 then [] else fields + Times(fields, n - 1)
  }

  const TZ_ENTRY: Layout := [4, 4, 2, 1, 1]
  const SETTINGS_BODY: Layout := [2, 2, 4, 4, 4] + [4, 4, 2, 1, 1]
  const SOURCE_ENTRY: Layout := [1, 1, 1, 1, 2] + [2, 4, 4, 4, 4]

  datatype Message = Unknown | Message(length: nat, layout: Layout)

  /** sml_message(). Length 0: variable. */
  function MessageOf(classId: u8, messageId: u8): Message {
    if classId == 0x10 then
      if messageId == 0x01 then Message(16, Fields([2, 1, 1], [4], 3, []))
      else if messageId == 0x10 then Message(38, Fields([2, 1, 1, 1, 1, 1, 1], [4], 7, [2]))
      else if messageId == 0x11 then Message(56, Fields([2, 1, 1], [4], 13, []))
      else if messageId == 0x12 then Message(20, Fields([2, 1, 1, 4, 2], [4], 2, [2]))
      else if messageId == 0x13 then Message(40, Fields([2, 1, 1], [4], 9, []))
      else if messageId == 0x20 then Message(54, Fields([2, 1, 1, 4, 4, 4] + [2, 2, 2], [4], 6, [2, 1, 1, 4]))
      else if messageId == 0x30 then Message(42, Fields([2, 1, 1], [4], 5, [2, 4, 4, 4, 4]))
      else if messageId == 0x40 then Message(34, Fields([2, 1, 1], [4], 3, [2, 4, 4, 4, 4]))
      else if messageId == 0x50 then Message(16, Fields([2, 1, 1, 2, 1, 1], [4], 2, []))
      else Unknown
    else if classId == 0x20 then
      if messageId == 0x01 then Message(124, Fields([2, 1, 1, 4, 4, 4], TZ_ENTRY, 9, [])) else Unknown
    else if classId == 0x30 then
      if messageId == 0x01 then Message(32, Fields([2, 1, 1, 1, 1], [2], 3, [4, 4, 4, 4, 4]))
      else if messageId == 0x10 then Message(14, Fields([], [2], 7, []))
      else if messageId == 0x20 then Message(14, Fields([], [2], 7, []))
      else if messageId == 0x30 then Message(36, Fields([2, 2, 4], SETTINGS_BODY, 1, []))
      else if messageId == 0x40 then Message(24, Fields([2, 1, 1], [4], 5, []))
      else if messageId == 0x50 then Message(108, Fields([2, 1, 1, 1, 1, 2, 4], SOURCE_ENTRY, 4, []))
      else if messageId == 0x60 then Message(16, Fields([2, 2], [4], 2, [2, 2]))
      else if messageId == 0xF0 then Message(0, [])
      else Unknown
    else if classId == 0x80 then
      if messageId == 0x10 then Message(10, Fields([2, 2, 2], [4], 1, []))
      else if messageId == 0x20 then Message(12, Fields([2, 2, 2, 2], [4], 1, []))
      else if messageId == 0x30 then Message(38, Fields([2, 2, 2, 4], SETTINGS_BODY, 1, []))
      else Unknown
    else Unknown
  }

  /** The messages there are: nine of the time, one of the zone, eight of state and
      three commands. Only STAT-DEBUG has no length of its own. */
  lemma TableKnows(classId: u8, messageId: u8)
    ensures MessageOf(classId, messageId).Message? <==>
              || (classId == 0x10 && messageId in {0x01, 0x10, 0x11, 0x12, 0x13, 0x20, 0x30, 0x40, 0x50})
              || (classId == 0x20 && messageId == 0x01)
              || (classId == 0x30 && messageId in {0x01, 0x10, 0x20, 0x30, 0x40, 0x50, 0x60, 0xF0})
              || (classId == 0x80 && messageId in {0x10, 0x20, 0x30})
    ensures var m := MessageOf(classId, messageId);
      m.Message? ==> (m.length == 0 <==> classId == 0x30 && messageId == 0xF0)
  {
    hide Fields;
  }

  lemma {:induction false} TimesSize(fields: Layout, n: nat)
    ensures Size(Times(fields, n)) == n * Size(fields)
    ensures FieldSizes(fields) ==> FieldSizes(Times(fields, n))
  {
    if n > 0 {
      TimesSize(fields, n - 1);
      SizeAppend(fields, Times(fields, n - 1));
      assert (n - 1) * Size(fields) + Size(fields) == n * Size(fields);
      hide Size;
    }
  }

  lemma FieldsSize(head: Layout, repeated: Layout, times: nat, tail: Layout)
    requires FieldSizes(head) && FieldSizes(repeated) && FieldSizes(tail)
    ensures Size(Fields(head, repeated, times, tail)) == Size(head) + times * Size(repeated) + Size(tail)
    ensures FieldSizes(Fields(head, repeated, times, tail))
  {
    TimesSize(repeated, times);
    SizeAppend(head, Times(repeated, times));
    SizeAppend(head + Times(repeated, times), tail);
  }

  ghost predicate AddsUp(m: Message) {
    m.Message? && m.length != 0 ==> FieldSizes(m.layout) && Size(m.layout) == m.length <= MAX_PAYLOAD
  }

  lemma TimeAddsUp1(messageId: u8)
    requires 0x00 <= messageId <= 0x11
    ensures AddsUp(MessageOf(0x10, messageId))
  {
    hide Fields;
    if messageId == 0x01 {
      FieldsSize([2, 1, 1], [4], 3, []);
    } else if messageId == 0x10 {
      FieldsSize([2, 1, 1, 1, 1, 1, 1], [4], 7, [2]);
    } else if messageId == 0x11 {
      FieldsSize([2, 1, 1], [4], 13, []);
    }
  }

  lemma TimeAddsUp2(messageId: u8)
    requires 0x12 <= messageId <= 0x1F
    ensures AddsUp(MessageOf(0x10, messageId))
  {
    hide Fields;
    if messageId == 0x12 {
      FieldsSize([2, 1, 1, 4, 2], [4], 2, [2]);
    } else if messageId == 0x13 {
      FieldsSize([2, 1, 1], [4], 9, []);
    }
  }

  lemma TimeAddsUp3(messageId: u8)
    requires 0x20 <= messageId <= 0x2F
    ensures AddsUp(MessageOf(0x10, messageId))
  {
    hide Fields;
    SizeAppend([2, 1, 1, 4, 4, 4], [2, 2, 2]);
    if messageId == 0x20 {
      FieldsSize([2, 1, 1, 4, 4, 4] + [2, 2, 2], [4], 6, [2, 1, 1, 4]);
    }
  }

  lemma TimeAddsUp4(messageId: u8)
    requires 0x30 <= messageId <= 0xFF
    ensures AddsUp(MessageOf(0x10, messageId))
  {
    hide Fields;
    if messageId == 0x30 {
      FieldsSize([2, 1, 1], [4], 5, [2, 4, 4, 4, 4]);
    } else if messageId == 0x40 {
      FieldsSize([2, 1, 1], [4], 3, [2, 4, 4, 4, 4]);
    } else if messageId == 0x50 {
      FieldsSize([2, 1, 1, 2, 1, 1], [4], 2, []);
    }
  }

  lemma TimeAddsUp(messageId: u8)
    ensures AddsUp(MessageOf(0x10, messageId))
  {
    hide AddsUp, Fields;
    if messageId <= 0x11 { TimeAddsUp1(messageId); }
    else if messageId <= 0x1F { TimeAddsUp2(messageId); }
    else if messageId <= 0x2F { TimeAddsUp3(messageId); }
    else { TimeAddsUp4(messageId); }
  }

  lemma ZoneAddsUp(messageId: u8)
    ensures AddsUp(MessageOf(0x20, messageId))
  {
    hide Fields;
    if messageId == 0x01 {
      FieldsSize([2, 1, 1, 4, 4, 4], TZ_ENTRY, 9, []);
    }
  }

  lemma StatAddsUp1(messageId: u8)
    requires 0x00 <= messageId <= 0x20
    ensures AddsUp(MessageOf(0x30, messageId))
  {
    hide Fields;
    if messageId == 0x01 {
      FieldsSize([2, 1, 1, 1, 1], [2], 3, [4, 4, 4, 4, 4]);
    } else if messageId == 0x10 {
      FieldsSize([], [2], 7, []);
    } else if messageId == 0x20 {
      FieldsSize([], [2], 7, []);
    }
  }

  lemma StatAddsUp2(messageId: u8)
    requires 0x21 <= messageId <= 0x40
    ensures AddsUp(MessageOf(0x30, messageId))
  {
    hide Fields;
    SizeAppend([2, 2, 4, 4, 4], [4, 4, 2, 1, 1]);
    if messageId == 0x30 {
      FieldsSize([2, 2, 4], SETTINGS_BODY, 1, []);
    } else if messageId == 0x40 {
      FieldsSize([2, 1, 1], [4], 5, []);
    }
  }

  lemma StatAddsUp3(messageId: u8)
    requires 0x41 <= messageId <= 0x5F
    ensures AddsUp(MessageOf(0x30, messageId))
  {
    hide Fields;
    SizeAppend([1, 1, 1, 1, 2], [2, 4, 4, 4, 4]);
    if messageId == 0x50 {
      FieldsSize([2, 1, 1, 1, 1, 2, 4], SOURCE_ENTRY, 4, []);
    }
  }

  lemma StatAddsUp4(messageId: u8)
    requires 0x60 <= messageId
    ensures AddsUp(MessageOf(0x30, messageId))
  {
    hide Fields;
    if messageId == 0x60 {
      FieldsSize([2, 2], [4], 2, [2, 2]);
    }
  }

  lemma StatAddsUp(messageId: u8)
    ensures AddsUp(MessageOf(0x30, messageId))
  {
    hide AddsUp, Fields;
    if messageId <= 0x20 { StatAddsUp1(messageId); }
    else if messageId <= 0x40 { StatAddsUp2(messageId); }
    else if messageId <= 0x5F { StatAddsUp3(messageId); }
    else { StatAddsUp4(messageId); }
  }

  lemma CmdAddsUp(messageId: u8)
    ensures AddsUp(MessageOf(0x80, messageId))
  {
    hide Fields;
    SizeAppend([2, 2, 4, 4, 4], [4, 4, 2, 1, 1]);
    if messageId == 0x10 {
      FieldsSize([2, 2, 2], [4], 1, []);
    } else if messageId == 0x20 {
      FieldsSize([2, 2, 2, 2], [4], 1, []);
    } else if messageId == 0x30 {
      FieldsSize([2, 2, 2, 4], SETTINGS_BODY, 1, []);
    }
  }

  /** Every fixed-length entry's layout adds up to its length, in fields of 1, 2
      and 4 bytes, and fits a frame. */
  lemma TableAddsUp(classId: u8, messageId: u8)
    ensures AddsUp(MessageOf(classId, messageId))
  {
    hide AddsUp, Fields;
    TimeAddsUp(messageId);
    ZoneAddsUp(messageId);
    StatAddsUp(messageId);
    CmdAddsUp(messageId);
    UnknownAddsUp();
  }

  lemma UnknownAddsUp()
    ensures AddsUp(Unknown)
  {
  }

  // ---- Frames ---------------------------------------------------------------

  /** B5 73 CLASS ID LEN_H LEN_L PAYLOAD CRC_H CRC_L */
  function Framed(classId: u8, messageId: u8, payload: seq<u8>): (f: seq<u8>)
    requires |payload| <= MAX_PAYLOAD
    ensures |f| == HEADER_BYTES + |payload| + CRC_SIZE
  {
    var body := [MAGIC_1, MAGIC_2, classId, messageId, 0, |payload|] + payload;
    var crc := CrcBytes(CRC_INIT, body);
    body + [crc / 256, crc % 256]
  }

  /** A built frame is a frame, whatever follows it, and opens to what it was built from. */
  lemma FramedIsAccepted(classId: u8, messageId: u8, payload: seq<u8>, more: seq<u8>)
    requires |payload| <= MAX_PAYLOAD
    ensures var f := Framed(classId, messageId, payload);
      SmlJudge(f + more) == Accept(|f|) && Opened(f) == SmlFrame(classId, messageId, payload)
  {
    hide CrcBytes;
    var f := Framed(classId, messageId, payload);
    var body := [MAGIC_1, MAGIC_2, classId, messageId, 0, |payload|] + payload;
    assert f[..|f| - 2] == body && (f + more)[..|f|] == f;
    assert f[HEADER_BYTES..|f| - CRC_SIZE] == payload;
    var crc := CrcBytes(CRC_INIT, body);
    assert GetU16(crc / 256, crc % 256) == crc;
  }

  /** The frames there are: magic, class, ID, length, payload and their CRC. */
  ghost predicate IsFrame(f: seq<u8>) {
    exists classId: u8, messageId: u8, payload: seq<u8> ::
      |payload| <= MAX_PAYLOAD && f == Framed(classId, messageId, payload)
  }

  /** The receiver takes exactly the frames there are. */
  lemma AcceptsExactly(s: seq<u8>, n: nat)
    ensures SmlJudge(s) == Accept(n) <==> n <= |s| && IsFrame(s[..n])
  {
    hide SmlJudge, IsFrame;
    TakenIsFrame(s);
    if n <= |s| && IsFrame(s[..n]) {
      FrameIsTaken(s, n);
    }
  }

  lemma FrameIsTaken(s: seq<u8>, n: nat)
    requires n <= |s| && IsFrame(s[..n])
    ensures SmlJudge(s) == Accept(n)
  {
    hide SmlJudge, Framed;
    var classId: u8, messageId: u8, payload: seq<u8> :|
      |payload| <= MAX_PAYLOAD && s[..n] == Framed(classId, messageId, payload);
    FramedIsAccepted(classId, messageId, payload, s[n..]);
    assert s == s[..n] + s[n..];
  }

  lemma TakenIsFrame(s: seq<u8>)
    ensures SmlJudge(s).Accept? ==> SmlJudge(s).n <= |s| && IsFrame(s[..SmlJudge(s).n])
  {
    hide CrcBytes;
    if SmlJudge(s).Accept? {
      var n := SmlJudge(s).n;
      var f := s[..n];
      var payload := f[HEADER_BYTES..n - CRC_SIZE];
      var body := [MAGIC_1, MAGIC_2, s[2], s[3], 0, |payload|] + payload;
      assert f[..n - 2] == body;
      assert f == body + [f[n - 2], f[n - 1]];
      assert f == Framed(s[2], s[3], payload);
    }
  }

  /** Its header, as far as there is one, is that of a longer frame. */
  predicate Heads(s: seq<u8>, f: seq<u8>) {
    |s| < |f| && if |s| < HEADER_BYTES then s <= f else s[..HEADER_BYTES] <= f
  }

  /** It waits exactly while the header so far is that of a longer frame; and, with
      one byte of the length to come, whatever the other. */
  lemma WaitsExactly(s: seq<u8>)
    ensures SmlJudge(s).Wait? <==>
              || (exists classId: u8, messageId: u8, payload: seq<u8> ::
                    |payload| <= MAX_PAYLOAD && Heads(s, Framed(classId, messageId, payload)))
              || (|s| == 5 && s[0] == MAGIC_1 && s[1] == MAGIC_2)
  {
    hide CrcBytes;
    if SmlJudge(s).Wait? && !(|s| == 5 && s[0] == MAGIC_1 && s[1] == MAGIC_2) {
      HeadsOne(s);
    }
    forall classId: u8, messageId: u8, payload: seq<u8> | |payload| <= MAX_PAYLOAD && Heads(s, Framed(classId, messageId, payload))
      ensures SmlJudge(s).Wait?
    {
      HeadWaits(s, classId, messageId, payload);
    }
  }

  lemma HeadWaits(s: seq<u8>, classId: u8, messageId: u8, payload: seq<u8>)
    requires |payload| <= MAX_PAYLOAD && Heads(s, Framed(classId, messageId, payload))
    ensures SmlJudge(s).Wait?
  {
    hide CrcBytes;
    var f := Framed(classId, messageId, payload);
    if |s| >= HEADER_BYTES {
      assert forall i :: 0 <= i < HEADER_BYTES ==> s[i] == s[..HEADER_BYTES][i] == f[i];
    } else {
      assert forall i :: 0 <= i < |s| ==> s[i] == f[i];
    }
  }

  lemma HeadsOne(s: seq<u8>)
    requires SmlJudge(s).Wait? && |s| != 5
    ensures exists classId: u8, messageId: u8, payload: seq<u8> ::
              |payload| <= MAX_PAYLOAD && Heads(s, Framed(classId, messageId, payload))
  {
    hide CrcBytes;
    var classId: u8, messageId: u8 := if |s| > 2 then s[2] else 0, if |s| > 3 then s[3] else 0;
    var payload: seq<u8> := seq(if |s| >= HEADER_BYTES then s[5] else 0, i => 0);
    assert Heads(s, Framed(classId, messageId, payload));
  }

  /** A frame damaged in one byte, other than its length, is never taken. */
  lemma DamagedRejected(classId: u8, messageId: u8, payload: seq<u8>, i: nat, b: u8)
    requires |payload| <= MAX_PAYLOAD && i < HEADER_BYTES + |payload| + CRC_SIZE && i != 4 && i != 5
    requires b != Framed(classId, messageId, payload)[i]
    ensures SmlJudge(Framed(classId, messageId, payload)[i := b]).Reject?
  {
    hide CrcBytes, SmlJudge;
    var f := Framed(classId, messageId, payload);
    var g := f[i := b];
    FramedParts(classId, messageId, payload);
    if i < 2 {
      BadMagic(g);
    } else {
      if i < |f| - CRC_SIZE {
        OneByteCounts(CRC_INIT, f[..|f| - 2], i, b);
        assert g[..|g| - 2] == f[..|f| - 2][i := b];
      } else {
        assert g[..|g| - 2] == f[..|f| - 2];
      }
      BadCrc(g);
    }
  }

  lemma FramedParts(classId: u8, messageId: u8, payload: seq<u8>)
    requires |payload| <= MAX_PAYLOAD
    ensures var f := Framed(classId, messageId, payload);
      && f[0] == MAGIC_1 && f[1] == MAGIC_2 && f[4] == 0 && f[5] == |payload|
      && CrcBytes(CRC_INIT, f[..|f| - 2]) == GetU16(f[|f| - 2], f[|f| - 1])
  {
    hide CrcBytes;
    var f := Framed(classId, messageId, payload);
    var body := [MAGIC_1, MAGIC_2, classId, messageId, 0, |payload|] + payload;
    assert f[..|f| - 2] == body;
    var crc := CrcBytes(CRC_INIT, body);
    assert GetU16(crc / 256, crc % 256) == crc;
  }

  lemma BadMagic(g: seq<u8>)
    requires |g| >= 2 && (g[0] != MAGIC_1 || g[1] != MAGIC_2)
    ensures SmlJudge(g).Reject?
  {
  }

  lemma BadCrc(g: seq<u8>)
    requires |g| >= HEADER_BYTES + CRC_SIZE && g[0] == MAGIC_1 && g[1] == MAGIC_2
    requires g[4] == 0 && g[5] <= MAX_PAYLOAD && |g| == HEADER_BYTES + g[5] + CRC_SIZE
    requires CrcBytes(CRC_INIT, g[..|g| - 2]) != GetU16(g[|g| - 2], g[|g| - 1])
    ensures SmlJudge(g).Reject?
  {
    hide CrcBytes;
    assert g[..|g|] == g;
  }

  /** The protocol's example of a debug frame is taken, and is "Hi" on a line. */
  lemma ExampleTaken()
    ensures var f: seq<u8> := [0xB5, 0x73, 0x30, 0xF0, 0x00, 0x04, 0x48, 0x69, 0x0D, 0x0A, 0x35, 0x88];
      SmlJudge(f) == Accept(12) && Opened(f) == SmlFrame(0x30, 0xF0, [0x48, 0x69, 0x0D, 0x0A])
  {
    hide CrcBytes;
    var f: seq<u8> := [0xB5, 0x73, 0x30, 0xF0, 0x00, 0x04, 0x48, 0x69, 0x0D, 0x0A, 0x35, 0x88];
    ExampleValue();
    assert f[..12] == f && f[..10] == [0xB5, 0x73, 0x30, 0xF0, 0x00, 0x04, 0x48, 0x69, 0x0D, 0x0A];
    assert f[6..10] == [0x48, 0x69, 0x0D, 0x0A];
  }

  /** sml_frame(). The payload may already sit where it goes. */
  method Frame(classId: u8, messageId: u8, payload: array<u8>, from: nat, length: nat, frame: array<u8>) returns (n: nat)
    requires from + length <= payload.Length
    requires length <= MAX_PAYLOAD ==> HEADER_BYTES + length + CRC_SIZE <= frame.Length
    requires payload == frame ==> from == HEADER_BYTES
    modifies frame
    ensures length > MAX_PAYLOAD <==> n == 0
    ensures n == 0 ==> frame[..] == old(frame[..])
    ensures n != 0 ==>
              && n == HEADER_BYTES + length + CRC_SIZE
              && frame[..n] == Framed(classId, messageId, old(payload[from..from + length]))
  {
    hide CrcByte;
    if length > MAX_PAYLOAD {
      return 0;
    }
    ghost var data := payload[from..from + length];
    PutBody(classId, messageId, payload, from, length, frame);
    var crc := Crc(CRC_INIT, frame, HEADER_BYTES + length);
    ghost var body := frame[..HEADER_BYTES + length];
    PutU16(frame, HEADER_BYTES + length, crc);
    n := HEADER_BYTES + length + CRC_SIZE;
    assert frame[..n] == body + [crc / 256, crc % 256];
  }

  method PutHeader(classId: u8, messageId: u8, length: nat, frame: array<u8>)
    requires length <= MAX_PAYLOAD && HEADER_BYTES <= frame.Length
    modifies frame
    ensures frame[..HEADER_BYTES] == [MAGIC_1, MAGIC_2, classId, messageId, 0, length]
    ensures frame[HEADER_BYTES..] == old(frame[HEADER_BYTES..])
  {
    frame[0], frame[1], frame[2], frame[3] := MAGIC_1, MAGIC_2, classId, messageId;
    PutU16(frame, 4, length);
  }

  // The header, and the payload moved after it.
  method PutBody(classId: u8, messageId: u8, payload: array<u8>, from: nat, length: nat, frame: array<u8>)
    requires from + length <= payload.Length && length <= MAX_PAYLOAD && HEADER_BYTES + length <= frame.Length
    requires payload == frame ==> from == HEADER_BYTES
    modifies frame
    ensures frame[..HEADER_BYTES + length] == [MAGIC_1, MAGIC_2, classId, messageId, 0, length] + old(payload[from..from + length])
  {
    ghost var data := payload[from..from + length];
    PutHeader(classId, messageId, length, frame);
    assert payload[from..from + length] == data by {
      if payload == frame {
        assert frame[HEADER_BYTES..HEADER_BYTES + length] == frame[HEADER_BYTES..][..length];
      }
    }
    if payload != frame && length != 0 {
      forall i | 0 <= i < length { frame[HEADER_BYTES + i] := payload[from + i]; }
    }
    assert frame[HEADER_BYTES..HEADER_BYTES + length] == data;
    assert frame[..HEADER_BYTES] == [MAGIC_1, MAGIC_2, classId, messageId, 0, length];
  }

  /** A message: class, ID and the native struct. */
  datatype Struct = Struct(classId: u8, messageId: u8, native: seq<u8>)

  /** Of the table, not of variable length, and its struct that long. */
  predicate Fixed(s: Struct) {
    var m := MessageOf(s.classId, s.messageId);
    m.Message? && m.length != 0 && |s.native| == m.length
  }

  function WireFrame(s: Struct, little: bool): (f: seq<u8>)
    requires Fixed(s)
  {
    TableAddsUp(s.classId, s.messageId);
    Framed(s.classId, s.messageId, Swapped(MessageOf(s.classId, s.messageId).layout, s.native, little))
  }

  /** sml_frame_message(). */
  method FrameMessage(classId: u8, messageId: u8, native: array<u8>, frame: array<u8>, little: bool) returns (n: nat)
    requires native != frame
    requires var m := MessageOf(classId, messageId);
      m.Message? ==> native.Length == m.length && (m.length != 0 ==> HEADER_BYTES + m.length + CRC_SIZE <= frame.Length)
    modifies frame
    ensures n == 0 <==> !Fixed(Struct(classId, messageId, native[..]))
    ensures n == 0 ==> frame[..] == old(frame[..])
    ensures n != 0 ==> n <= frame.Length && frame[..n] == WireFrame(Struct(classId, messageId, native[..]), little)
  {
    hide MessageOf, Swapped, Framed;
    var message := MessageOf(classId, messageId);
    if message == Unknown || message.length == 0 {
      return 0;
    }
    TableAddsUp(classId, messageId);
    var offset := Encode(message.layout, native, frame, HEADER_BYTES, little);
    assert native[..offset] == native[..];
    assert frame[HEADER_BYTES..HEADER_BYTES + offset] == frame[..][HEADER_BYTES..HEADER_BYTES + offset];
    n := Frame(classId, messageId, frame, HEADER_BYTES, message.length, frame);
  }

  // ---- Round trip -----------------------------------------------------------

  function Stream(messages: seq<Struct>, little: bool): seq<u8>
    requires forall i :: 0 <= i < |messages| ==> Fixed(messages[i])
  {
    if messages == [] then [] else WireFrame(messages[0], little) + Stream(messages[1..], little)
  }

  /** What the receiver's owner makes of a frame, by the table. */
  function Received(f: SmlFrame, little: bool): Struct {
    var m := MessageOf(f.classId, f.messageId);
    if m.Message? && m.length != 0 && Size(m.layout) == |f.payload| then
      Struct(f.classId, f.messageId, Swapped(m.layout, f.payload, little))
    else Struct(f.classId, f.messageId, f.payload)
  }

  lemma MessageRoundTrip(s: Struct, little: bool, more: seq<u8>)
    requires Fixed(s)
    ensures var f := WireFrame(s, little);
      SmlJudge(f + more) == Accept(|f|) && Received(Opened(f), little) == s
  {
    hide MessageOf, Framed, SmlJudge, Opened;
    TableAddsUp(s.classId, s.messageId);
    var layout := MessageOf(s.classId, s.messageId).layout;
    FramedIsAccepted(s.classId, s.messageId, Swapped(layout, s.native, little), more);
    SwappedTwice(layout, s.native, little);
  }

  /** Any list of known fixed-length messages, framed, run together and scanned:
      the same list, no noise, nothing left over. With the receiver's contract
      (Receive), that is what comes out of a fresh parser. */
  lemma {:induction false} StreamRoundTrip(messages: seq<Struct>, little: bool)
    requires forall i :: 0 <= i < |messages| ==> Fixed(messages[i])
    ensures Sound(SmlJudge)
    ensures var items := Items(SmlJudge, Stream(messages, little));
      && NoiseCount(items) == 0 && Rest(SmlJudge, Stream(messages, little)) == []
      && |Frames(items)| == |messages|
      && forall i :: 0 <= i < |messages| ==> Received(Opened(Frames(items)[i]), little) == messages[i]
  {
    hide Fixed, WireFrame, SmlJudge, Received, Opened;
    JudgeIsStable();
    if messages != [] {
      var f, more := WireFrame(messages[0], little), Stream(messages[1..], little);
      MessageRoundTrip(messages[0], little, more);
      StreamRoundTrip(messages[1..], little);
      AcceptedFirst(f, more);
    }
  }

  lemma AcceptedFirst(f: seq<u8>, more: seq<u8>)
    requires Sound(SmlJudge) && f != [] && SmlJudge(f + more) == Accept(|f|)
    ensures var items := Items(SmlJudge, f + more);
      && NoiseCount(items) == NoiseCount(Items(SmlJudge, more))
      && Rest(SmlJudge, f + more) == Rest(SmlJudge, more)
      && Frames(items) == [f] + Frames(Items(SmlJudge, more))
  {
    hide SmlJudge;
    assert (f + more)[..|f|] == f && (f + more)[|f|..] == more;
    var rest := Items(SmlJudge, more);
    assert Items(SmlJudge, f + more) == [Item.Frame(f)] + rest;
    FlattenAppend([Item.Frame(f)], rest);
  }

  lemma {:induction false} StreamNext(messages: seq<Struct>, s: Struct, little: bool)
    requires (forall i :: 0 <= i < |messages| ==> Fixed(messages[i])) && Fixed(s)
    ensures Stream(messages + [s], little) == Stream(messages, little) + WireFrame(s, little)
  {
    hide Fixed, WireFrame;
    if messages == [] {
      assert [s][1..] == [];
    } else {
      StreamNext(messages[1..], s, little);
      assert (messages + [s])[1..] == messages[1..] + [s];
    }
  }

  // The bytes on the wire, each message framed in turn.
  method Transmit(messages: seq<Struct>, little: bool) returns (wire: seq<u8>)
    requires forall i :: 0 <= i < |messages| ==> Fixed(messages[i])
    ensures wire == Stream(messages, little)
  {
    hide WireFrame, MessageOf;
    wire := [];
    for i := 0 to |messages|
      invariant wire == Stream(messages[..i], little)
    {
      var s := messages[i];
      TableAddsUp(s.classId, s.messageId);
      var native, frame := new u8[|s.native|](k requires 0 <= k < |s.native| => s.native[k]), new u8[MAX_FRAME];
      assert native[..] == s.native;
      var n := FrameMessage(s.classId, s.messageId, native, frame, little);
      StreamNext(messages[..i], s, little);
      assert messages[..i + 1] == messages[..i] + [s];
      wire := wire + frame[..n];
    }
    assert messages[..|messages|] == messages;
  }

  /** A frame decoded by the table. */
  method DecodeMessage(f: SmlFrame, little: bool) returns (s: Struct)
    ensures s == Received(f, little)
  {
    hide MessageOf, Swapped;
    var message := MessageOf(f.classId, f.messageId);
    if !message.Message? || message.length == 0 || Size(message.layout) != |f.payload| {
      return Struct(f.classId, f.messageId, f.payload);
    }
    TableAddsUp(f.classId, f.messageId);
    var wire, native := new u8[|f.payload|](k requires 0 <= k < |f.payload| => f.payload[k]), new u8[message.length];
    assert wire[0..|f.payload|] == f.payload;
    var offset := Decode(message.layout, wire, 0, native, little);
    assert native[..] == Swapped(message.layout, f.payload, little);
    s := Struct(f.classId, f.messageId, native[..]);
  }

  /** End to end: the messages framed, pushed through a fresh parser a byte at a time
      and decoded come out as the list. */
  method Deliver(messages: seq<Struct>, little: bool) returns (received: seq<Struct>, noise: nat)
    requires forall i :: 0 <= i < |messages| ==> Fixed(messages[i])
    ensures received == messages && noise == 0
  {
    hide Fixed, WireFrame, SmlJudge, Received, Opened, Items, Rest, Sound, Accounts, Frames, NoiseCount, Stream;
    var wire := Transmit(messages, little);
    var parser := new SmlParser();
    var frames := Receive(parser, wire);
    StreamRoundTrip(messages, little);
    noise := parser.noiseBytes;
    received := [];
    for i := 0 to |frames|
      invariant received == messages[..i]
    {
      var s := DecodeMessage(frames[i], little);
      received := received + [s];
    }
  }
}
