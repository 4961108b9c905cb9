/** The SML codec (common/sml.c): structs to the wire and back, and frames. */
module SmlCodec {
  import opened MachineWords
  import opened Crc16
  import opened Scanner
  import opened SmlReceiver

  // ---- Fields ---------------------------------------------------------------

  /** Field sizes in order: the layout strings of the message table. */
  type Layout = seq<nat>

  ghost predicate FieldSizes(layout: Layout) {
    forall i :: 0 <= i < |layout| ==> layout[i] == 1 || layout[i] == 2 || layout[i] == 4
  }

  function Size(layout: Layout): nat {
    if layout == [] then 0 else layout[0] + Size(layout[1..])
  }

  function Reversed(s: seq<u8>): seq<u8> {
    seq(|s|, i requires 0 <= i < |s| => s[|s| - 1 - i])
  }

  /** A field of a native struct, on the wire (and back): the wire is big-endian. */
  function Swap(field: seq<u8>, little: bool): seq<u8> {
    if little then Reversed(field) else field
  }

  /** A whole struct, field by field. */
  function Swapped(layout: Layout, data: seq<u8>, little: bool): (r: seq<u8>)
    requires |data| == Size(layout)
    ensures |r| == |data|
  {
    if layout == [] then [] else
    Swap(data[..layout[0]], little) + Swapped(layout[1..], data[layout[0]..], little)
  }

  /** Decoding undoes encoding, whatever the native byte order. */
  lemma {:induction false} SwappedTwice(layout: Layout, data: seq<u8>, little: bool)
    requires |data| == Size(layout)
    ensures Swapped(layout, Swapped(layout, data, little), little) == data
  {
    hide Swap, Swapped;
    if layout != [] {
      var n := layout[0];
      var wire := Swapped(layout, data, little);
      FirstSwapped(layout, data, little);
      FirstSwapped(layout, wire, little);
      SwapTwice(data[..n], little);
      SwappedTwice(layout[1..], data[n..], little);
    }
  }

  lemma FirstSwapped(layout: Layout, data: seq<u8>, little: bool)
    requires layout != [] && |data| == Size(layout)
    ensures var n, s := layout[0], Swapped(layout, data, little);
      n <= |data| && |data[n..]| == Size(layout[1..])
      && s[..n] == Swap(data[..n], little) && s[n..] == Swapped(layout[1..], data[n..], little)
  {
    SwapTwice(data[..layout[0]], little);
    hide Swap;
  }

  lemma SwapTwice(field: seq<u8>, little: bool)
    ensures |Swap(field, little)| == |field| && Swap(Swap(field, little), little) == field
  {
  }

  /** The n bytes of a value, lowest first and highest first. */
  function Little(value: nat, n: nat): seq<u8> {
    if n == 0 then [] else [value % 256] + Little(value / 256, n - 1)
  }

  function Big(value: nat, n: nat): seq<u8> {
    if n == 0 then [] else Big(value / 256, n - 1) + [value % 256]
  }

  /** On the wire every value is highest byte first, on either native order. */
  lemma {:induction false} WireIsBig(value: nat, n: nat)
    ensures Swap(Little(value, n), true) == Big(value, n) == Swap(Big(value, n), false)
  {
    if n > 0 {
      WireIsBig(value / 256, n - 1);
      var rest: seq<u8>, low: u8 := Little(value / 256, n - 1), value % 256;
      assert Reversed([low] + rest) == Reversed(rest) + [low];
    }
  }

  lemma {:induction false} SizeAppend(a: Layout, b: Layout)
    ensures Size(a + b) == Size(a) + Size(b)
  {
    if a == [] {
      assert a + b == b;
    } else {
      assert (a + b)[1..] == a[1..] + b;
      SizeAppend(a[1..], b);
    }
  }

  /** One field more, at the end: how the loops go. */
  lemma {:induction false} SwappedNext(layout: Layout, n: nat, data: seq<u8>, field: seq<u8>, little: bool)
    requires |data| == Size(layout) && |field| == n
    ensures Size(layout + [n]) == |data + field|
    ensures Swapped(layout + [n], data + field, little) == Swapped(layout, data, little) + Swap(field, little)
  {
    hide Swap, Swapped;
    SizeAppend(layout, [n]);
    OneField(n, field, little);
    var more := layout + [n];
    if layout == [] {
      assert more == [n] && data + field == field;
    } else {
      var first := layout[0];
      FirstSwapped(layout, data, little);
      FirstSwapped(more, data + field, little);
      assert more[1..] == layout[1..] + [n] && more[0] == first;
      assert (data + field)[..first] == data[..first] && (data + field)[first..] == data[first..] + field;
      SwappedNext(layout[1..], n, data[first..], field, little);
    }
  }

  lemma OneField(n: nat, field: seq<u8>, little: bool)
    requires |field| == n
    ensures Size([n]) == n && Swapped([n], field, little) == Swap(field, little)
    ensures Swapped([], [], little) == []
  {
    assert field[..n] == field && field[n..] == [];
    hide Swap;
  }

  // uint16_t and uint32_t variables filled by memcpy().
  function Native16(b: seq<u8>, little: bool): u16
    requires |b| == 2
  {
    if little then GetU16(b[1], b[0]) else GetU16(b[0], b[1])
  }

  function GetU32(b: seq<u8>): u32
    requires |b| == 4
  {
    var high: int, low: int := GetU16(b[0], b[1]), GetU16(b[2], b[3]);
    high * 65536 + low
  }

  function Native32(b: seq<u8>, little: bool): u32
    requires |b| == 4
  {
    if little then GetU32(Reversed(b)) else GetU32(b)
  }

  method PutU16(wire: array<u8>, at: nat, value: u16)
    requires at + 2 <= wire.Length
    modifies wire
    ensures wire[..] == old(wire[..])[at := value / 256][at + 1 := value % 256]
  {
    wire[at] := value / 256;
    wire[at + 1] := value % 256;
  }

  method PutU32(wire: array<u8>, at: nat, value: u32)
    requires at + 4 <= wire.Length
    modifies wire
    ensures wire[..] == old(wire[..])[at := value / 0x1000000][at + 1 := value / 0x10000 % 256]
                                     [at + 2 := value / 0x100 % 256][at + 3 := value % 256]
  {
    wire[at] := value / 0x1000000;
    wire[at + 1] := value / 0x10000 % 256;
    wire[at + 2] := value / 0x100 % 256;
    wire[at + 3] := value % 256;
  }

  lemma Bytes32(b: seq<u8>)
    requires |b| == 4
    ensures var v := GetU32(b);
      b == [v / 0x1000000, v / 0x10000 % 256, v / 0x100 % 256, v % 256]
  {
    var b0: int, b1: int, b2: int, b3: int := b[0], b[1], b[2], b[3];
    var v: int := GetU32(b);
    assert v == b0 * 0x1000000 + b1 * 0x10000 + b2 * 0x100 + b3;
    hide GetU32;
    Digits(v, b0, b1, b2, b3);
    assert b == [b[0], b[1], b[2], b[3]];
  }

  lemma Digits(v: int, b0: int, b1: int, b2: int, b3: int)
    requires v == b0 * 0x1000000 + b1 * 0x10000 + b2 * 0x100 + b3
    requires 0 <= b0 < 256 && 0 <= b1 < 256 && 0 <= b2 < 256 && 0 <= b3 < 256
    ensures v / 0x1000000 == b0 && v / 0x10000 % 256 == b1 && v / 0x100 % 256 == b2 && v % 256 == b3
  {
    assert v / 0x10000 == b0 * 256 + b1;
    assert v / 0x100 == (b0 * 256 + b1) * 256 + b2;
  }

  lemma Bytes16(b: seq<u8>)
    requires |b| == 2
    ensures var v := GetU16(b[0], b[1]); b == [v / 256, v % 256]
  {
  }

  /** w with these bytes over it from at. */
  function Over(w: seq<u8>, at: nat, bytes: seq<u8>): (r: seq<u8>)
    requires at + |bytes| <= |w|
    ensures |r| == |w|
  {
    w[..at] + bytes + w[at + |bytes|..]
  }

  lemma OverNext(w: seq<u8>, at: nat, done: seq<u8>, field: seq<u8>)
    requires at + |done| + |field| <= |w|
    ensures Over(Over(w, at, done), at + |done|, field) == Over(w, at, done + field)
  {
  }

  /** sml_encode(): the struct at native, field by field, to the wire at base. */
  method Encode(layout: Layout, native: array<u8>, wire: array<u8>, base: nat, little: bool) returns (offset: nat)
    requires FieldSizes(layout) && native != wire && Size(layout) <= native.Length && base + Size(layout) <= wire.Length
    modifies wire
    ensures offset == Size(layout)
    ensures wire[..] == Over(old(wire[..]), base, Swapped(layout, native[..offset], little))
  {
    hide Swap, Swapped, Over, Size;
    offset := 0;
    var i := 0;
    NoSize(layout);
    NoFields(wire[..], base, native[..0], little);
    while i < |layout|
      invariant 0 <= i <= |layout| && offset == Size(layout[..i]) && offset + Size(layout[i..]) == Size(layout)
      invariant wire[..] == Over(old(wire[..]), base, Swapped(layout[..i], native[..offset], little))
    {
      var size := layout[i];
      NextField(layout, i);
      EncodeField(native, offset, wire, base + offset, size, little);
      assert native[..offset + size] == native[..offset] + native[offset..offset + size];
      SwappedNext(layout[..i], size, native[..offset], native[offset..offset + size], little);
      OverNext(old(wire[..]), base, Swapped(layout[..i], native[..offset], little), Swap(native[offset..offset + size], little));
      offset := offset + size;
      i := i + 1;
    }
    assert layout[..i] == layout;
  }

  lemma NoSize(layout: Layout)
    ensures Size(layout[..0]) == 0 && Size(layout[0..]) == Size(layout)
  {
    assert layout[0..] == layout;
  }

  lemma NextField(layout: Layout, i: nat)
    requires i < |layout|
    ensures layout[..i + 1] == layout[..i] + [layout[i]]
    ensures Size(layout[i..]) == layout[i] + Size(layout[i + 1..])
  {
    assert layout[i..][1..] == layout[i + 1..];
  }

  lemma NoFields(w: seq<u8>, base: nat, none: seq<u8>, little: bool)
    requires base <= |w| && none == []
    ensures w == Over(w, base, Swapped([], none, little))
  {
  }

  // One field of sml_encode(): its value, then its bytes.
  method EncodeField(native: array<u8>, from: nat, wire: array<u8>, at: nat, size: nat, little: bool)
    requires (size == 1 || size == 2 || size == 4) && native != wire && from + size <= native.Length && at + size <= wire.Length
    modifies wire
    ensures |Swap(native[from..from + size], little)| == size
    ensures wire[..] == Over(old(wire[..]), at, Swap(native[from..from + size], little))
  {
    hide Swap, Over, Native16, Native32;
    ghost var field, before := native[from..from + size], wire[..];
    SwapTwice(field, little);
    OverIs(before, at, Swap(field, little));
    if size == 4 {
      var value := Native32(native[from..from + 4], little);
      Native32Is(field, little);
      Bytes32(Swap(field, little));
      PutU32(wire, at, value);
    } else if size == 2 {
      var value := Native16(native[from..from + 2], little);
      Native16Is(field, little);
      Bytes16(Swap(field, little));
      PutU16(wire, at, value);
    } else {
      SwapOne(field, little);
      wire[at] := native[from];
      assert wire[..] == before[at := field[0]];
    }
  }

  lemma Native32Is(b: seq<u8>, little: bool)
    requires |b| == 4
    ensures |Swap(b, little)| == 4 && Native32(b, little) == GetU32(Swap(b, little))
  {
  }

  lemma Native16Is(b: seq<u8>, little: bool)
    requires |b| == 2
    ensures |Swap(b, little)| == 2 && Native16(b, little) == GetU16(Swap(b, little)[0], Swap(b, little)[1])
  {
  }

  lemma SwapOne(b: seq<u8>, little: bool)
    requires |b| == 1
    ensures Swap(b, little) == b
  {
  }

  // Bytes written one by one.
  lemma OverIs(w: seq<u8>, at: nat, b: seq<u8>)
    requires at + |b| <= |w|
    ensures |b| == 1 ==> Over(w, at, b) == w[at := b[0]]
    ensures |b| == 2 ==> Over(w, at, b) == w[at := b[0]][at + 1 := b[1]]
    ensures |b| == 4 ==> Over(w, at, b) == w[at := b[0]][at + 1 := b[1]][at + 2 := b[2]][at + 3 := b[3]]
  {
  }

  lemma SwapFour(b: seq<u8>)
    requires |b| == 4
    ensures Swap(b, true) == [b[3], b[2], b[1], b[0]] && Swap(b, false) == b
  {
  }

  lemma SwapTwo(b: seq<u8>)
    requires |b| == 2
    ensures Swap(b, true) == [b[1], b[0]] && Swap(b, false) == b
  {
  }

  /** sml_decode(): the same from the wire into a native struct. */
  method Decode(layout: Layout, wire: array<u8>, base: nat, native: array<u8>, little: bool) returns (offset: nat)
    requires FieldSizes(layout) && native != wire && Size(layout) <= native.Length && base + Size(layout) <= wire.Length
    modifies native
    ensures offset == Size(layout)
    ensures native[..] == Over(old(native[..]), 0, Swapped(layout, wire[base..base + offset], little))
  {
    hide Swap, Swapped, Over, Size;
    offset := 0;
    var i := 0;
    NoSize(layout);
    NoFields(native[..], 0, wire[base..base], little);
    while i < |layout|
      invariant 0 <= i <= |layout| && offset == Size(layout[..i]) && offset + Size(layout[i..]) == Size(layout)
      invariant native[..] == Over(old(native[..]), 0, Swapped(layout[..i], wire[base..base + offset], little))
    {
      var size, at := layout[i], base + offset;
      NextField(layout, i);
      DecodeField(wire, at, native, offset, size, little);
      assert wire[base..at + size] == wire[base..at] + wire[at..at + size];
      SwappedNext(layout[..i], size, wire[base..at], wire[at..at + size], little);
      OverNext(old(native[..]), 0, Swapped(layout[..i], wire[base..at], little), Swap(wire[at..at + size], little));
      offset := offset + size;
      i := i + 1;
    }
    assert layout[..i] == layout;
  }

  // One field of sml_decode(): read big-endian, stored in native order.
  method DecodeField(wire: array<u8>, at: nat, native: array<u8>, to: nat, size: nat, little: bool)
    requires (size == 1 || size == 2 || size == 4) && native != wire && to + size <= native.Length && at + size <= wire.Length
    modifies native
    ensures |Swap(wire[at..at + size], little)| == size
    ensures native[..] == Over(old(native[..]), to, Swap(wire[at..at + size], little))
  {
    hide Swap, Over, GetU32;
    ghost var field, before := wire[at..at + size], native[..];
    SwapTwice(field, little);
    OverIs(before, to, Swap(field, little));
    if size == 4 {
      var value := GetU32(wire[at..at + 4]);
      Bytes32(field);
      SwapFour(field);
      if little {
        native[to], native[to + 1], native[to + 2], native[to + 3] :=
          value % 256, value / 0x100 % 256, value / 0x10000 % 256, value / 0x1000000;
        assert native[..] == before[to := field[3]][to + 1 := field[2]][to + 2 := field[1]][to + 3 := field[0]];
      } else {
        PutU32(native, to, value);
      }
    } else if size == 2 {
      var value := GetU16(wire[at], wire[at + 1]);
      Bytes16(field);
      SwapTwo(field);
      if little {
        native[to], native[to + 1] := value % 256, value / 256;
        assert native[..] == before[to := field[1]][to + 1 := field[0]];
      } else {
        PutU16(native, to, value);
      }
    } else {
      SwapOne(field, little);
      native[to] := wire[at];
      assert native[..] == before[to := field[0]];
    }
  }
}
