/** UBX frames built (gnss/ubx_encode.c), the CFG-VALSET and CFG-VALGET messages
    among them, and the CFG-VALGET reader (gnss/ubx_decode.c). */
module UbxConfig {
  import opened MachineWords
  import opened Scanner
  import opened UbxReceiver

  const CLASS_CFG: u8 := 0x06
  const ID_VALSET: u8 := 0x8A
  const ID_VALGET: u8 := 0x8B
  const CAPACITY: nat := 256
  const VAL_HEADER_LENGTH: nat := 4
  const MAX_KEYS: nat := 64

  // ---- Little-endian bytes ------------------------------------------------------

  function Le(value: nat, size: nat): (s: seq<u8>)
    ensures |s| == size
  {
    if size == 0 then [] else [value % 256] + Le(value / 256, size - 1)
  }

  function LeValue(s: seq<u8>): nat {
    if s == [] then 0 else var first: int := s[0]; first + 256 * LeValue(s[1..])
  }

  /** 256 to the size: the values that fit. */
  function Range(size: nat): (r: nat)
    ensures r > 0
  {
    if size == 0 then 1 else 256 * Range(size - 1)
  }

  /** Reading back gives the value, truncated to the bytes it was given. */
  lemma {:induction false} LeRoundTrip(value: nat, size: nat)
    ensures LeValue(Le(value, size)) == value % Range(size)
  {
    if size > 0 {
      LeRoundTrip(value / 256, size - 1);
      assert Le(value, size)[1..] == Le(value / 256, size - 1);
      ModStep(value, Range(size - 1));
    }
  }

  lemma ModStep(value: nat, range: nat)
    requires range > 0
    ensures value % (256 * range) == value % 256 + 256 * (value / 256 % range)
  {
    var high := value / 256;
    var q := high / range;
    assert high == q * range + high % range;
    assert value == q * (256 * range) + (256 * (high % range) + value % 256);
    Remainder(value, 256 * range, q, 256 * (high % range) + value % 256);
  }

  lemma Remainder(value: nat, d: nat, q: nat, r: nat)
    requires d > 0 && value == q * d + r && r < d
    ensures value % d == r
  {
    Quotient(value, d, q);
    assert value == value / d * d + value % d;
  }

  lemma {:induction false} LeNext(value: nat, size: nat, k: nat)
    requires k < size
    ensures Le(value, size)[..k + 1] == Le(value, size)[..k] + [value / Range(k) % 256]
  {
    if k == 0 {
      assert value / Range(0) == value;
    } else {
      LeNext(value / 256, size - 1, k - 1);
      Shifted(value, Range(k - 1));
      var rest := Le(value / 256, size - 1);
      assert Le(value, size)[..k + 1] == [value % 256] + rest[..k];
      assert Le(value, size)[..k] == [value % 256] + rest[..k - 1];
    }
  }

  lemma Shifted(value: nat, range: nat)
    requires range > 0
    ensures value / 256 / range == value / (256 * range)
  {
    var high := value / 256;
    var q := high / range;
    var m := high % range;
    assert high == q * range + m;
    assert value == 256 * (q * range) + (256 * m + value % 256);
    assert 256 * (q * range) == q * (256 * range);
    Quotient(value, 256 * range, q);
  }

  // ---- Keys and values ------------------------------------------------------------

  /** UBX_CFG_KEY_VALUE_SIZE(): by bits 28 to 30 of the key; 0 is no size. */
  function ValueSize(key: u32): nat {
    var code := key / 0x1000_0000 % 8;
    if code == 1 || code == 2 then 1 else if code == 3 then 2 else if code == 4 then 4 else if code == 5 then 8 else 0
  }

  /** The keys the program sets: a flag and a byte take one, as in the receiver's own
      list of them; the rest follow their code. */
  lemma KeySizes()
    ensures ValueSize(0x1005_0007) == 1 // CFG-TP-TP1_ENA, L
    ensures ValueSize(0x2011_0021) == 1 // CFG-NAVSPG-DYNMODEL, E1
    ensures ValueSize(0x3021_0001) == 2 // CFG-RATE-MEAS, U2
    ensures ValueSize(0x4052_0001) == 4 // CFG-UART1-BAUDRATE, U4
    ensures forall key: u32, code: nat :: code < 8 && code * 0x1000_0000 <= key % 0x8000_0000 < (code + 1) * 0x1000_0000 ==>
              ValueSize(key) == [0, 1, 1, 2, 4, 8, 0, 0][code]
  {
  }

  datatype Item = Item(key: u32, value: u32)

  predicate Settable(i: Item) {
    1 <= ValueSize(i.key) <= 4
  }

  function Pair(i: Item): seq<u8> {
    Le(i.key, 4) + Le(i.value, ValueSize(i.key))
  }

  function Pairs(items: seq<Item>): seq<u8> {
    if items == [] then [] else Pairs(items[..|items| - 1]) + Pair(items[|items| - 1])
  }

  function Keys(keys: seq<u32>): seq<u8> {
    if keys == [] then [] else Keys(keys[..|keys| - 1]) + Le(keys[|keys| - 1], 4)
  }

  lemma PairsNext(items: seq<Item>, i: Item)
    ensures Pairs(items + [i]) == Pairs(items) + Pair(i)
  {
    assert (items + [i])[..|items + [i]| - 1] == items;
  }

  lemma {:induction false} PairsJoin(a: seq<Item>, b: seq<Item>)
    ensures Pairs(a + b) == Pairs(a) + Pairs(b)
  {
    hide Pair;
    if b == [] {
      assert a + b == a && Pairs(b) == [];
    } else {
      var n := |b| - 1;
      PairsJoin(a, b[..n]);
      assert a + b == (a + b[..n]) + [b[n]] && b == b[..n] + [b[n]];
      PairsNext(a + b[..n], b[n]);
      PairsNext(b[..n], b[n]);
      assert Pairs(a) + Pairs(b[..n]) + Pair(b[n]) == Pairs(a) + (Pairs(b[..n]) + Pair(b[n]));
    }
  }

  // ---- Frames -----------------------------------------------------------------------

  /** Section 3.2 of the u-blox M9 SPG 4.04 interface description. */
  function FrameOf(classId: u8, messageId: u8, payload: seq<u8>): seq<u8>
    requires |payload| < 0x1_0000
  {
    var body := [classId, messageId, |payload| % 256, |payload| / 256] + payload;
    var (a, b) := Checksum(body);
    [SYNC_1, SYNC_2] + body + [a, b]
  }

  /** A frame built is one the parser takes, whole, if its length suits the message;
      and the message taken from it is the one put in. */
  lemma FrameFound(classId: u8, messageId: u8, payload: seq<u8>)
    requires |payload| < 0x1_0000
    ensures var frame := FrameOf(classId, messageId, payload);
      UbxReceiver.Plausible(FindRule(classId, messageId), |payload|) ==>
        && UbxJudge(frame) == Accept(|payload| + FRAME_OVERHEAD)
        && Opened(frame) == if FindRule(classId, messageId) == NoRule then [] else [UbxMessage(classId, messageId, payload)]
  {
    hide FindRule, Checksum;
    var frame := FrameOf(classId, messageId, payload);
    var n := |frame|;
    assert frame[..n] == frame;
    assert PayloadLength(frame) == |payload|;
    assert frame[2..n - 2] == [classId, messageId, |payload| % 256, |payload| / 256] + payload;
    assert frame[HEADER_LENGTH..n - 2] == payload;
  }

  /** The frames that suit what is expected of their message. */
  ghost predicate IsFrame(f: seq<u8>) {
    exists classId: u8, messageId: u8, payload: seq<u8> ::
      |payload| < 0x1_0000 && UbxReceiver.Plausible(FindRule(classId, messageId), |payload|)
      && f == FrameOf(classId, messageId, payload)
  }

  /** The receiver takes exactly those. */
  lemma AcceptsExactly(s: seq<u8>, n: nat)
    ensures UbxJudge(s) == Accept(n) <==> n <= |s| && IsFrame(s[..n])
  {
    hide UbxJudge, IsFrame;
    TakenIsFrame(s);
    if n <= |s| && IsFrame(s[..n]) {
      FrameIsTaken(s, n);
    }
  }

  /** Once the stream has gone quiet it takes the same frames, and waits for nothing. */
  lemma FlushedExactly(s: seq<u8>, n: nat)
    ensures FlushJudge(s) == Accept(n) <==> n <= |s| && IsFrame(s[..n])
    ensures FlushJudge(s).Wait? <==> s == []
  {
    AcceptsExactly(s, n);
    hide IsFrame, Checksum, FindRule, ChecksumGood, UbxReceiver.Plausible;
  }

  lemma TakenIsFrame(s: seq<u8>)
    ensures UbxJudge(s).Accept? ==> UbxJudge(s).n <= |s| && IsFrame(s[..UbxJudge(s).n])
  {
    hide Checksum, FindRule;
    if UbxJudge(s).Accept? {
      var n := UbxJudge(s).n;
      var f := s[..n];
      var payload := f[HEADER_LENGTH..n - 2];
      var length: int := |payload|;
      assert length % 256 == s[4] && length / 256 == s[5] by {
        var high: int := s[5];
        assert length == s[4] + high * 256;
      }
      assert f[2..n - 2] == [s[2], s[3], s[4], s[5]] + payload;
      assert f == [SYNC_1, SYNC_2] + f[2..n - 2] + [f[n - 2], f[n - 1]];
      assert f == FrameOf(s[2], s[3], payload);
    }
  }

  lemma FrameIsTaken(s: seq<u8>, n: nat)
    requires n <= |s| && IsFrame(s[..n])
    ensures UbxJudge(s) == Accept(n)
  {
    hide UbxJudge, FrameOf, FindRule, UbxReceiver.Opened;
    var classId: u8, messageId: u8, payload: seq<u8> :|
      |payload| < 0x1_0000 && UbxReceiver.Plausible(FindRule(classId, messageId), |payload|)
      && s[..n] == FrameOf(classId, messageId, payload);
    FrameFound(classId, messageId, payload);
    FrameLength(classId, messageId, payload);
    assert s == s[..n] + s[n..];
    JudgesAreSound();
  }

  lemma FrameLength(classId: u8, messageId: u8, payload: seq<u8>)
    requires |payload| < 0x1_0000
    ensures |FrameOf(classId, messageId, payload)| == |payload| + FRAME_OVERHEAD
  {
    hide Checksum;
  }

  /** It waits exactly for the rest of the sync bytes, of the header, or of a frame
      whose header it is. */
  lemma WaitsExactly(s: seq<u8>)
    ensures UbxJudge(s).Wait? <==>
              if |s| < HEADER_LENGTH then s <= [SYNC_1, SYNC_2] || [SYNC_1, SYNC_2] <= s
              else exists classId: u8, messageId: u8, payload: seq<u8> ::
                     && |payload| < 0x1_0000 && UbxReceiver.Plausible(FindRule(classId, messageId), |payload|)
                     && |s| < |FrameOf(classId, messageId, payload)|
                     && s[..HEADER_LENGTH] <= FrameOf(classId, messageId, payload)
  {
    hide Checksum, FindRule;
    if |s| >= HEADER_LENGTH {
      if UbxJudge(s).Wait? {
        HeadsOne(s);
      }
      forall classId: u8, messageId: u8, payload: seq<u8> |
        && |payload| < 0x1_0000 && UbxReceiver.Plausible(FindRule(classId, messageId), |payload|)
        && |s| < |FrameOf(classId, messageId, payload)| && s[..HEADER_LENGTH] <= FrameOf(classId, messageId, payload)
        ensures UbxJudge(s).Wait?
      {
        HeadWaits(s, classId, messageId, payload);
      }
    }
    hide FrameOf;
  }

  lemma HeadWaits(s: seq<u8>, classId: u8, messageId: u8, payload: seq<u8>)
    requires |payload| < 0x1_0000 && UbxReceiver.Plausible(FindRule(classId, messageId), |payload|)
    requires HEADER_LENGTH <= |s| < |FrameOf(classId, messageId, payload)|
    requires s[..HEADER_LENGTH] <= FrameOf(classId, messageId, payload)
    ensures UbxJudge(s).Wait?
  {
    hide Checksum, FindRule;
    var f := FrameOf(classId, messageId, payload);
    assert forall i :: 0 <= i < HEADER_LENGTH ==> s[i] == s[..HEADER_LENGTH][i] == f[i];
  }

  lemma HeadsOne(s: seq<u8>)
    requires |s| >= HEADER_LENGTH && UbxJudge(s).Wait?
    ensures exists classId: u8, messageId: u8, payload: seq<u8> ::
              && |payload| < 0x1_0000 && UbxReceiver.Plausible(FindRule(classId, messageId), |payload|)
              && |s| < |FrameOf(classId, messageId, payload)|
              && s[..HEADER_LENGTH] <= FrameOf(classId, messageId, payload)
  {
    hide Checksum, FindRule;
    var payload: seq<u8> := seq(PayloadLength(s), i => 0);
    var f := FrameOf(s[2], s[3], payload);
    assert s[..HEADER_LENGTH] == f[..HEADER_LENGTH];
  }

  /** The receiver's answer to a CFG-VALSET it has taken. */
  lemma AckTaken()
    ensures var f: seq<u8> := [0xB5, 0x62, 0x05, 0x01, 0x02, 0x00, 0x06, 0x8A, 0x98, 0xC1];
      UbxJudge(f) == Accept(10) && UbxReceiver.Opened(f) == [UbxMessage(0x05, 0x01, [0x06, 0x8A])]
  {
    hide Checksum;
    var f: seq<u8> := [0xB5, 0x62, 0x05, 0x01, 0x02, 0x00, 0x06, 0x8A, 0x98, 0xC1];
    assert f[..10] == f && f[2..8] == [0x05, 0x01, 0x02, 0x00, 0x06, 0x8A] && f[6..8] == [0x06, 0x8A];
    AckSums();
    ChecksumIs([0x05, 0x01, 0x02, 0x00, 0x06, 0x8A]);
  }

  lemma AckSums()
    ensures Sum([0x05, 0x01, 0x02, 0x00, 0x06, 0x8A]) == 0x98
    ensures Weighted([0x05, 0x01, 0x02, 0x00, 0x06, 0x8A]) == 0xC1
  {
    var s: seq<u8> := [0x05, 0x01, 0x02, 0x00, 0x06, 0x8A];
    assert s[1..] == [0x01, 0x02, 0x00, 0x06, 0x8A] && s[1..][1..] == [0x02, 0x00, 0x06, 0x8A];
    assert s[1..][1..][1..] == [0x00, 0x06, 0x8A] && s[1..][1..][1..][1..] == [0x06, 0x8A];
    assert s[1..][1..][1..][1..][1..] == [0x8A] && s[1..][1..][1..][1..][1..][1..] == [];
  }

  /** ubx_encode_frame(): into a frame that is long enough, else nothing. */
  method EncodeFrame(classId: u8, messageId: u8, payload: array<u8>, payloadLength: u16, frame: array<u8>, capacity: u16)
    returns (length: nat)
    requires payloadLength <= payload.Length && capacity <= frame.Length && payload != frame
    modifies frame
    ensures length == if payloadLength + FRAME_OVERHEAD > capacity then 0 else payloadLength + FRAME_OVERHEAD
    ensures length > 0 ==> frame[..length] == FrameOf(classId, messageId, payload[..payloadLength])
    ensures frame[length..] == old(frame[length..])
  {
    hide FrameOf;
    if payloadLength + FRAME_OVERHEAD > capacity {
      return 0;
    }
    WriteHeader(frame, classId, messageId, payloadLength);
    for i := 0 to payloadLength
      invariant HeaderIn(frame, classId, messageId, payloadLength)
      invariant frame[HEADER_LENGTH..HEADER_LENGTH + i] == payload[..i]
      invariant frame[payloadLength + FRAME_OVERHEAD..] == old(frame[payloadLength + FRAME_OVERHEAD..])
    {
      frame[HEADER_LENGTH + i] := payload[i];
      assert frame[HEADER_LENGTH..HEADER_LENGTH + i + 1] == frame[HEADER_LENGTH..HEADER_LENGTH + i] + [payload[i]];
    }
    WriteChecksum(frame, classId, messageId, payloadLength);
    length := payloadLength + FRAME_OVERHEAD;
  }

  ghost predicate HeaderIn(frame: array<u8>, classId: u8, messageId: u8, payloadLength: u16)
    reads frame
  {
    && HEADER_LENGTH <= frame.Length
    && frame[..HEADER_LENGTH] == [SYNC_1, SYNC_2, classId, messageId, payloadLength % 256, payloadLength / 256]
  }

  /** write_header() */
  method WriteHeader(frame: array<u8>, classId: u8, messageId: u8, payloadLength: u16)
    requires HEADER_LENGTH <= frame.Length
    modifies frame
    ensures HeaderIn(frame, classId, messageId, payloadLength)
    ensures frame[HEADER_LENGTH..] == old(frame[HEADER_LENGTH..])
  {
    frame[0] := SYNC_1;
    frame[1] := SYNC_2;
    frame[2] := classId;
    frame[3] := messageId;
    frame[4] := payloadLength % 256;
    frame[5] := payloadLength / 256;
  }

  /** write_checksum(): the header and the payload are in place. */
  method WriteChecksum(frame: array<u8>, classId: u8, messageId: u8, payloadLength: u16)
    requires HeaderIn(frame, classId, messageId, payloadLength) && payloadLength + FRAME_OVERHEAD <= frame.Length
    modifies frame
    ensures frame[..payloadLength + FRAME_OVERHEAD]
      == FrameOf(classId, messageId, old(frame[HEADER_LENGTH..HEADER_LENGTH + payloadLength]))
    ensures frame[payloadLength + FRAME_OVERHEAD..] == old(frame[payloadLength + FRAME_OVERHEAD..])
  {
    hide Checksum;
    ghost var payload := frame[HEADER_LENGTH..HEADER_LENGTH + payloadLength];
    ghost var body := [classId, messageId, payloadLength % 256, payloadLength / 256] + payload;
    assert frame[2..HEADER_LENGTH + payloadLength] == body by {
      assert frame[2..HEADER_LENGTH] == frame[..HEADER_LENGTH][2..];
      assert frame[2..HEADER_LENGTH + payloadLength] == frame[2..HEADER_LENGTH] + payload;
    }
    assert frame[..2] == [SYNC_1, SYNC_2] by {
      assert frame[..2] == frame[..HEADER_LENGTH][..2];
    }
    var a, b := ComputeChecksum(frame, 2, payloadLength + 4);
    var at := HEADER_LENGTH + payloadLength;
    frame[at] := a;
    frame[at + 1] := b;
    assert frame[2..at] == body;
    assert frame[..at + 2] == frame[..2] + frame[2..at] + [a, b];
  }

  // ---- The builder --------------------------------------------------------------------

  class CfgMessage {
    const frame: array<u8>
    var frameLength: nat
    var payloadLength: u16
    var messageId: u8
    var keyCount: u8
    var overflowed: bool
    // What has been accepted, and the layer asked for.
    ghost var items: seq<Item>
    ghost var keys: seq<u32>
    ghost var layer: u8

    ghost function Payload(): seq<u8>
      reads this`items, this`keys, this`layer, this`messageId
    {
      [0, layer, 0, 0] + (if messageId == ID_VALSET then Pairs(items) else Keys(keys))
    }

    /** The frame holds what has been accepted, and never more than it can. */
    ghost predicate Valid()
      reads this, frame
    {
      && frame.Length == CAPACITY && VAL_HEADER_LENGTH <= payloadLength && payloadLength + FRAME_OVERHEAD <= CAPACITY
      && keyCount <= MAX_KEYS && (messageId == ID_VALSET || messageId == ID_VALGET)
      && (!overflowed ==>
            && frame[HEADER_LENGTH..HEADER_LENGTH + payloadLength] == Payload()
            && keyCount == (if messageId == ID_VALSET then |items| else |keys|))
      && forall i :: 0 <= i < |items| ==> Settable(items[i])
    }

    /** cfg_begin(), by ubx_encode_valset_begin() or ubx_encode_valget_begin(). */
    constructor (messageId: u8, layer: u8)
      requires messageId == ID_VALSET || messageId == ID_VALGET
      ensures Valid() && this.messageId == messageId && this.layer == layer && !overflowed && items == [] && keys == []
      ensures payloadLength == VAL_HEADER_LENGTH && keyCount == 0 && fresh(frame)
    {
      var bytes := new u8[CAPACITY](_ => 0);
      bytes[HEADER_LENGTH + 1] := layer;
      frame := bytes;
      frameLength, payloadLength, keyCount, overflowed := 0, VAL_HEADER_LENGTH, 0, false;
      this.messageId, this.layer, items, keys := messageId, layer, [], [];
      new;
      assert frame[HEADER_LENGTH..HEADER_LENGTH + VAL_HEADER_LENGTH] == [0, layer, 0, 0];
    }

    /** cfg_append(): the bytes go after what is there, if there is room. */
    method Append(value: u32, size: nat) returns (ok: bool)
      requires frame.Length == CAPACITY && payloadLength + FRAME_OVERHEAD <= CAPACITY && size <= 4
      modifies this`payloadLength, this`overflowed, frame
      ensures ok <==> !old(overflowed) && old(payloadLength) + size + FRAME_OVERHEAD <= CAPACITY
      ensures overflowed == !ok
      ensures payloadLength == if ok then old(payloadLength) + size else old(payloadLength)
      ensures ok ==> frame[HEADER_LENGTH..HEADER_LENGTH + payloadLength]
                     == old(frame[HEADER_LENGTH..HEADER_LENGTH + payloadLength]) + Le(value, size)
      ensures !ok ==> frame[..] == old(frame[..])
    {
      hide Le;
      if overflowed || payloadLength + size + FRAME_OVERHEAD > CAPACITY {
        overflowed := true;
        return false;
      }
      var cursor := HEADER_LENGTH + payloadLength;
      ghost var before := frame[HEADER_LENGTH..cursor];
      var index := 0;
      while index < size
        invariant 0 <= index <= size && frame[HEADER_LENGTH..cursor] == before
        invariant payloadLength == old(payloadLength) && !overflowed
        invariant frame[cursor..cursor + index] == Le(value, size)[..index]
      {
        frame[cursor + index] := ByteAt(value, index);
        LeNext(value, size, index);
        assert frame[cursor..cursor + index + 1] == frame[cursor..cursor + index] + [ByteAt(value, index)];
        index := index + 1;
      }
      assert frame[HEADER_LENGTH..cursor + size] == before + frame[cursor..cursor + size];
      assert Le(value, size)[..size] == Le(value, size);
      payloadLength := payloadLength + size;
      return true;
    }

    /** cfg_append_key() */
    method AppendKey(key: u32) returns (ok: bool)
      requires frame.Length == CAPACITY && payloadLength + FRAME_OVERHEAD <= CAPACITY && keyCount <= MAX_KEYS
      modifies this`payloadLength, this`overflowed, this`keyCount, frame
      ensures ok <==> !old(overflowed) && old(keyCount) < MAX_KEYS && old(payloadLength) + 4 + FRAME_OVERHEAD <= CAPACITY
      ensures overflowed == !ok
      ensures payloadLength == (if ok then old(payloadLength) + 4 else old(payloadLength))
      ensures keyCount == (if ok then old(keyCount) + 1 else old(keyCount))
      ensures ok ==> frame[HEADER_LENGTH..HEADER_LENGTH + payloadLength]
                     == old(frame[HEADER_LENGTH..HEADER_LENGTH + payloadLength]) + Le(key, 4)
    {
      if keyCount >= MAX_KEYS {
        overflowed := true;
        return false;
      }
      ok := Append(key, 4);
      if !ok {
        return;
      }
      keyCount := keyCount + 1;
    }

    /** ubx_encode_valset_add(): a key and its value together, or neither, and a
        refused one spoils the message; except that one to a CFG-VALGET is only
        refused. */
    method ValsetAdd(key: u32, value: u32) returns (ok: bool)
      requires Valid()
      modifies this`payloadLength, this`overflowed, this`keyCount, this`items, frame
      ensures Valid() && layer == old(layer)
      ensures ok <==> messageId == ID_VALSET && !old(overflowed) && Settable(Item(key, value)) && old(keyCount) < MAX_KEYS
                        && old(payloadLength) + 4 + ValueSize(key) + FRAME_OVERHEAD <= CAPACITY
      ensures items == if ok then old(items) + [Item(key, value)] else old(items)
      ensures messageId == ID_VALSET ==> overflowed == !ok
      ensures messageId != ID_VALSET ==> overflowed == old(overflowed)
      ensures payloadLength == old(payloadLength) + (if ok then 4 + ValueSize(key) else 0)
      ensures keyCount == old(keyCount) + (if ok then 1 else 0)
    {
      hide Pairs, Keys, Le, ValueSize;
      var size := ValueSize(key);
      if messageId != ID_VALSET {
        return false;
      }
      if size == 0 || size > 4 {
        overflowed := true;
        return false;
      }
      if payloadLength + 4 + size + FRAME_OVERHEAD > CAPACITY {
        overflowed := true;
        return false;
      }
      ghost var before := frame[HEADER_LENGTH..HEADER_LENGTH + payloadLength];
      ok := AppendKey(key);
      if ok {
        ok := Append(value, size);
        PairsNext(items, Item(key, value));
        assert before + Le(key, 4) + Le(value, size) == before + Pair(Item(key, value));
        assert before + Pair(Item(key, value)) == [0, layer, 0, 0] + (Pairs(items) + Pair(Item(key, value)));
        items := items + [Item(key, value)];
      }
    }

    /** ubx_encode_valget_add() */
    method ValgetAdd(key: u32) returns (ok: bool)
      requires Valid()
      modifies this`payloadLength, this`overflowed, this`keyCount, this`keys, frame
      ensures Valid() && layer == old(layer)
      ensures ok <==> messageId == ID_VALGET && !old(overflowed) && old(keyCount) < MAX_KEYS
                        && old(payloadLength) + 4 + FRAME_OVERHEAD <= CAPACITY
      ensures keys == if ok then old(keys) + [key] else old(keys)
      ensures messageId == ID_VALGET ==> overflowed == !ok
      ensures messageId != ID_VALGET ==> overflowed == old(overflowed)
      ensures payloadLength == old(payloadLength) + (if ok then 4 else 0)
      ensures keyCount == old(keyCount) + (if ok then 1 else 0)
    {
      hide Pairs, Keys, Le;
      if messageId != ID_VALGET {
        return false;
      }
      ghost var before := frame[HEADER_LENGTH..HEADER_LENGTH + payloadLength];
      ok := AppendKey(key);
      if ok {
        KeysNext(keys, key);
        assert before + Le(key, 4) == [0, layer, 0, 0] + (Keys(keys) + Le(key, 4));
        keys := keys + [key];
      }
    }

    /** ubx_encode_cfg_finish(): only with every add accepted, and one at least; the
        frame is then one the parser takes, of exactly what was accepted. */
    method Finish() returns (ok: bool)
      requires Valid()
      modifies this`frameLength, frame
      ensures Valid() && (ok <==> !overflowed && keyCount > 0)
      ensures ok ==> frameLength == payloadLength + FRAME_OVERHEAD <= CAPACITY
                     && frame[..frameLength] == FrameOf(CLASS_CFG, messageId, Payload())
    {
      hide FrameOf, Pairs, Keys;
      if overflowed || keyCount == 0 {
        return false;
      }
      ghost var payload := frame[HEADER_LENGTH..HEADER_LENGTH + payloadLength];
      assert payload == frame[HEADER_LENGTH..][..payloadLength];
      WriteHeader(frame, CLASS_CFG, messageId, payloadLength);
      assert frame[HEADER_LENGTH..HEADER_LENGTH + payloadLength] == frame[HEADER_LENGTH..][..payloadLength];
      WriteChecksum(frame, CLASS_CFG, messageId, payloadLength);
      PayloadIn(frame[..payloadLength + FRAME_OVERHEAD], CLASS_CFG, messageId, payload);
      assert frame[HEADER_LENGTH..HEADER_LENGTH + payloadLength]
        == frame[..payloadLength + FRAME_OVERHEAD][HEADER_LENGTH..HEADER_LENGTH + payloadLength];
      frameLength := payloadLength + FRAME_OVERHEAD;
      return true;
    }
  }

  /** An add of the wrong kind is refused and spoils nothing: a CFG-VALGET with one
      key of its own is finished all the same, */
  method ValsetInValget(own: u32, other: u32, value: u32) returns (m: CfgMessage)
    ensures m.Valid() && !m.overflowed && m.messageId == ID_VALGET && m.keys == [own] && m.items == []
    ensures m.frameLength <= CAPACITY && m.frame[..m.frameLength] == FrameOf(CLASS_CFG, ID_VALGET, m.Payload())
  {
    hide FrameOf, Pairs, Keys;
    m := new CfgMessage(ID_VALGET, 0);
    var taken := m.ValgetAdd(own);
    var refused := m.ValsetAdd(other, value);
    var finished := m.Finish();
    assert taken && !refused && finished;
  }

  /** and so is a CFG-VALSET with one item. */
  method ValgetInValset(own: u32, other: u32, value: u32) returns (m: CfgMessage)
    requires Settable(Item(own, value))
    ensures m.Valid() && !m.overflowed && m.messageId == ID_VALSET && m.keys == [] && m.items == [Item(own, value)]
    ensures m.frameLength <= CAPACITY && m.frame[..m.frameLength] == FrameOf(CLASS_CFG, ID_VALSET, m.Payload())
  {
    hide FrameOf, Pairs, Keys;
    m := new CfgMessage(ID_VALSET, 0);
    var taken := m.ValsetAdd(own, value);
    var refused := m.ValgetAdd(other);
    var finished := m.Finish();
    assert taken && !refused && finished;
  }

  lemma PayloadIn(frame: seq<u8>, classId: u8, messageId: u8, payload: seq<u8>)
    requires |payload| < 0x1_0000 && frame == FrameOf(classId, messageId, payload)
    ensures frame[HEADER_LENGTH..HEADER_LENGTH + |payload|] == payload
  {
  }

  lemma KeysNext(keys: seq<u32>, key: u32)
    ensures Keys(keys + [key]) == Keys(keys) + Le(key, 4)
  {
    assert (keys + [key])[..|keys + [key]| - 1] == keys;
  }

  /** (uint8_t)(value >> (8 * index)) */
  function ByteAt(value: u32, index: nat): u8
  {
    value / Range(index) % 256
  }

  // ---- The reader -------------------------------------------------------------------

  /** An item read; an 8-byte value only by its low 32 bits. */
  datatype ReadResult = ItemRead(key: u32, value: u32, size: nat) | End | Malformed

  /** What the bytes left hold first. */
  function ReadFirst(s: seq<u8>): (r: ReadResult)
    ensures r.ItemRead? ==> r.size > 0 && 4 + r.size <= |s|
  {
    if s == [] then End
    else if |s| < 4 then Malformed
    else
      Word(s[..4]);
      var key := LeValue(s[..4]);
      var size := ValueSize(key);
      if size == 0 || |s| < 4 + size then Malformed
      else
        var width := if size > 4 then 4 else size;
        Word(s[4..4 + width]);
        ItemRead(key, LeValue(s[4..4 + width]), size)
  }

  lemma Word(s: seq<u8>)
    requires |s| <= 4
    ensures LeValue(s) < U32
  {
    InRange(s);
    assert Range(4) == 256 * Range(3) && Range(3) == 256 * Range(2) && Range(2) == 256 * Range(1) && Range(1) == 256 * Range(0);
    if |s| == 0 {} else if |s| == 1 {} else if |s| == 2 {} else if |s| == 3 {} else {}
  }

  lemma {:induction false} InRange(s: seq<u8>)
    ensures LeValue(s) < Range(|s|)
  {
    if s != [] {
      InRange(s[1..]);
    }
  }

  /** Everything they hold. */
  function ReadAll(s: seq<u8>): (seq<ReadResult>, bool)
    decreases |s|
  {
    var first := ReadFirst(s);
    if !first.ItemRead? then ([], first == End)
    else
      var (rest, whole) := ReadAll(s[4 + first.size..]);
      ([first] + rest, whole)
  }

  /** Which is what was set, the values truncated to the size of their keys. */
  function Truncated(items: seq<Item>): seq<ReadResult>
    requires forall i :: 0 <= i < |items| ==> Settable(items[i])
  {
    seq(|items|, i requires 0 <= i < |items| =>
      ItemRead(items[i].key, items[i].value % Range(ValueSize(items[i].key)), ValueSize(items[i].key)))
  }

  lemma PairRead(i: Item, rest: seq<u8>)
    requires Settable(i)
    ensures ReadFirst(Pair(i) + rest) == ItemRead(i.key, i.value % Range(ValueSize(i.key)), ValueSize(i.key))
  {
    hide Le, LeValue, ValueSize, Range;
    var s, size := Pair(i) + rest, ValueSize(i.key);
    LeRoundTrip(i.key, 4);
    LeRoundTrip(i.value, size);
    KeyWhole(i.key);
    assert s[..4] == Le(i.key, 4) && s[4..4 + size] == Le(i.value, size);
  }

  lemma KeyWhole(key: u32)
    ensures key % Range(4) == key
  {
    assert Range(4) == 256 * Range(3) && Range(3) == 256 * Range(2) && Range(2) == 256 * Range(1) && Range(1) == 256 * Range(0);
  }

  /** Any list of items set reads back as itself, and then the end. */
  lemma {:induction false} ReadsBack(items: seq<Item>)
    requires forall i :: 0 <= i < |items| ==> Settable(items[i])
    ensures ReadAll(Pairs(items)) == (Truncated(items), true)
  {
    if items != [] {
      hide Pair, Pairs, ReadFirst, Range, ValueSize;
      var rest := items[1..];
      PairsFirst(items);
      PairRead(items[0], Pairs(rest));
      ReadsBack(rest);
      assert (Pair(items[0]) + Pairs(rest))[4 + ValueSize(items[0].key)..] == Pairs(rest);
      assert Truncated(items) == [Truncated(items)[0]] + Truncated(rest);
    }
  }

  lemma PairsFirst(items: seq<Item>)
    requires items != []
    ensures Pairs(items) == Pair(items[0]) + Pairs(items[1..])
    ensures |Pair(items[0])| == 4 + ValueSize(items[0].key)
  {
    hide ValueSize;
    PairsJoin([items[0]], items[1..]);
    assert items == [items[0]] + items[1..];
    assert [items[0]][..0] == [] && Pairs([items[0]]) == [] + Pair(items[0]) == Pair(items[0]);
  }

  class ValgetReader {
    const payload: array<u8>
    const end: nat
    var cursor: nat
    var layer: u8
    var position: u16

    predicate Valid()
      reads this
    {
      cursor <= end <= payload.Length
    }

    function Left(): seq<u8>
      requires Valid()
      reads this, payload
    {
      payload[cursor..end]
    }

    /** ubx_decode_valget_open(), of a payload that has a header. */
    constructor (payload: array<u8>, length: nat)
      requires VAL_HEADER_LENGTH <= length <= payload.Length
      ensures Valid() && this.payload == payload && end == length && Left() == payload[VAL_HEADER_LENGTH..length]
      ensures layer == payload[1] && position == LeValue(payload[2..4])
    {
      this.payload, end, cursor := payload, length, VAL_HEADER_LENGTH;
      layer := payload[1];
      var high: int := payload[3];
      position := payload[2] + 256 * high;
      new;
      assert payload[2..4][1..] == payload[3..4] && payload[3..4][1..] == [];
      assert LeValue(payload[3..4]) == high;
    }

    /** ubx_decode_valget_next() */
    method Next() returns (r: ReadResult)
      requires Valid()
      modifies this`cursor
      ensures Valid() && r == old(ReadFirst(Left()))
      ensures Left() == if r.ItemRead? then old(Left())[4 + r.size..] else old(Left())
    {
      hide LeValue, ValueSize, Range;
      ghost var left := Left();
      if cursor == end {
        return End;
      }
      if end - cursor < 4 {
        return Malformed;
      }
      SubSlice(payload, cursor, end, 0, 4);
      var key := ReadLe(cursor, 4);
      var size := ValueSize(key);
      if size == 0 || end - cursor < 4 + size {
        return Malformed;
      }
      var width := if size > 4 then 4 else size;
      SubSlice(payload, cursor, end, 4, 4 + width);
      SubSlice(payload, cursor, end, 4 + size, end - cursor);
      cursor := cursor + 4;
      var value := ReadLe(cursor, width);
      cursor := cursor + size;
      return ItemRead(key, value, size);
    }

    // The loop over a value's bytes, from the lowest.
    method ReadLe(from: nat, width: nat) returns (value: u32)
      requires width <= 4 && from + width <= payload.Length
      ensures value == LeValue(payload[from..from + width])
    {
      var sum: nat := 0;
      var index := 0;
      while index < width
        invariant 0 <= index <= width && sum == LeValue(payload[from..from + index])
      {
        var b: int := payload[from + index];
        Appended(payload[from..from + index], payload[from + index]);
        assert payload[from..from + index + 1] == payload[from..from + index] + [payload[from + index]];
        sum := sum + b * Range(index);
        index := index + 1;
      }
      Word(payload[from..from + width]);
      return sum;
    }
  }

  lemma {:induction false} Appended(s: seq<u8>, b: u8)
    ensures LeValue(s + [b]) == LeValue(s) + b * Range(|s|)
  {
    var value: int := b;
    if s == [] {
      assert s + [b] == [b] && [b][1..] == [];
    } else {
      Appended(s[1..], b);
      assert (s + [b])[1..] == s[1..] + [b];
      assert 256 * (value * Range(|s| - 1)) == value * (256 * Range(|s| - 1));
    }
  }

  /** A configuration finished, and the payload of its frame read as a CFG-VALGET
      response would be: the keys and values set, truncated, in order, and then the
      end. */
  method ReadConfiguration(message: CfgMessage) returns (items: seq<ReadResult>, whole: bool)
    requires message.Valid() && message.messageId == ID_VALSET && !message.overflowed
    ensures items == Truncated(message.items) && whole
  {
    hide Pairs, ReadFirst;
    var payload := new u8[message.payloadLength];
    var i := 0;
    while i < message.payloadLength
      invariant 0 <= i <= message.payloadLength
      invariant payload[..i] == message.frame[HEADER_LENGTH..HEADER_LENGTH + i]
    {
      payload[i] := message.frame[HEADER_LENGTH + i];
      i := i + 1;
    }
    assert payload[..] == message.Payload();
    var reader := new ValgetReader(payload, payload.Length);
    ReadsBack(message.items);
    assert reader.Left() == Pairs(message.items);
    items, whole := [], false;
    hide ReadAll, Truncated;
    assert [] + ReadAll(reader.Left()).0 == Truncated(message.items);
    while true
      invariant reader.Valid() && reader.payload == payload && fresh(reader)
      invariant items + ReadAll(reader.Left()).0 == Truncated(message.items) && ReadAll(reader.Left()).1
      decreases |reader.Left()|
    {
      ReadOn(items, reader.Left());
      var r := reader.Next();
      if !r.ItemRead? {
        whole := r == End;
        break;
      }
      items := items + [r];
    }
  }

  lemma ReadOn(items: seq<ReadResult>, s: seq<u8>)
    ensures var first := ReadFirst(s);
      if first.ItemRead? then
        && items + ReadAll(s).0 == (items + [first]) + ReadAll(s[4 + first.size..]).0
        && ReadAll(s).1 == ReadAll(s[4 + first.size..]).1
      else ReadAll(s).1 == (first == End) && items + ReadAll(s).0 == items
  {
  }
}
