/** Framing by rescan, whatever the frame: at each point the front of what has
    been received is rejected by one byte, accepted whole, or waited on. The
    batch scan of a whole stream is the specification of both parsers. */
module Scanner {
  import opened MachineWords

  datatype Verdict = Reject | Wait | Accept(n: nat)

  type Rule = seq<u8> -> Verdict

  datatype Item = Noise(byte: u8) | Frame(bytes: seq<u8>)

  /** A frame is never empty, nor longer than what there is. */
  ghost predicate Sound(v: Rule) {
    forall s: seq<u8> :: v(s).Accept? ==> 0 < v(s).n <= |s|
  }

  /** Once decided, more bytes do not change a verdict. */
  ghost predicate Stable(v: Rule) {
    forall s: seq<u8>, t: seq<u8> {:trigger v(s + t)} :: !v(s).Wait? && s != [] ==> v(s + t) == v(s)
  }

  /** The items a stream divides into, and what is left waiting. */
  ghost function Items(v: Rule, s: seq<u8>): seq<Item>
    requires Sound(v)
    decreases |s|
  {
    if s == [] then []
    else match v(s)
      case Wait => []
      case Reject => [Noise(s[0])] + Items(v, s[1..])
      case Accept(n) => [Frame(s[..n])] + Items(v, s[n..])
  }

  ghost function Rest(v: Rule, s: seq<u8>): seq<u8>
    requires Sound(v)
    decreases |s|
  {
    if s == [] then []
    else match v(s)
      case Wait => s
      case Reject => Rest(v, s[1..])
      case Accept(n) => Rest(v, s[n..])
  }

  ghost function Flatten(items: seq<Item>): seq<u8> {
    if items == [] then []
    else Bytes(items[0]) + Flatten(items[1..])
  }

  ghost function Bytes(item: Item): seq<u8> {
    match item
    case Noise(b) => [b]
    case Frame(x) => x
  }

  lemma FlattenCons(item: Item, items: seq<Item>, rest: seq<u8>)
    ensures Flatten([item] + items) == Bytes(item) + Flatten(items)
    ensures Flatten([item] + items) + rest == Bytes(item) + (Flatten(items) + rest)
  {
    assert ([item] + items)[1..] == items;
  }

  ghost function Frames(items: seq<Item>): seq<seq<u8>> {
    if items == [] then []
    else (if items[0].Frame? then [items[0].bytes] else []) + Frames(items[1..])
  }

  ghost function NoiseCount(items: seq<Item>): nat {
    if items == [] then 0 else (if items[0].Noise? then 1 else 0) + NoiseCount(items[1..])
  }

  lemma {:induction false} FlattenAppend(a: seq<Item>, b: seq<Item>)
    ensures Flatten(a + b) == Flatten(a) + Flatten(b)
    ensures Frames(a + b) == Frames(a) + Frames(b)
    ensures NoiseCount(a + b) == NoiseCount(a) + NoiseCount(b)
  {
    if a == [] {
      assert a + b == b;
    } else {
      assert (a + b)[1..] == a[1..] + b;
      FlattenAppend(a[1..], b);
      hide Bytes;
      assert Bytes(a[0]) + (Flatten(a[1..]) + Flatten(b)) == (Bytes(a[0]) + Flatten(a[1..])) + Flatten(b);
    }
  }

  /** Scanning goes on from what was left waiting: the stream may be cut anywhere. */
  lemma {:induction false} ScanResumes(v: Rule, s: seq<u8>, t: seq<u8>)
    requires Sound(v) && Stable(v)
    ensures Items(v, s + t) == Items(v, s) + Items(v, Rest(v, s) + t)
    ensures Rest(v, s + t) == Rest(v, Rest(v, s) + t)
    decreases |s|
  {
    hide Items, Rest;
    ScanStep(v, s);
    ScanStep(v, s + t);
    if s == [] {
      assert s + t == t && [] + t == t;
    } else {
      Settled(v, s, t);
      match v(s)
      case Wait =>
      case Reject =>
        assert (s + t)[1..] == s[1..] + t;
        ScanResumes(v, s[1..], t);
      case Accept(n) =>
        assert (s + t)[n..] == s[n..] + t && (s + t)[..n] == s[..n];
        ScanResumes(v, s[n..], t);
    }
  }

  lemma Settled(v: Rule, s: seq<u8>, t: seq<u8>)
    requires Stable(v) && s != []
    ensures v(s).Wait? || v(s + t) == v(s)
  {
  }

  lemma ScanStep(v: Rule, s: seq<u8>)
    requires Sound(v)
    ensures s == [] || v(s).Wait? ==> Items(v, s) == [] && Rest(v, s) == s
    ensures s != [] && v(s).Reject? ==> Items(v, s) == [Noise(s[0])] + Items(v, s[1..]) && Rest(v, s) == Rest(v, s[1..])
    ensures s != [] && v(s).Accept? ==>
              0 < v(s).n <= |s| && Items(v, s) == [Frame(s[..v(s).n])] + Items(v, s[v(s).n..]) && Rest(v, s) == Rest(v, s[v(s).n..])
  {
  }

  /** A division of a stream in which every byte dropped really could not start
      a frame, every frame really is one, and the scan stops only to wait. */
  ghost predicate Proper(v: Rule, items: seq<Item>, rest: seq<u8>) {
    if items == [] then rest == [] || v(rest).Wait?
    else
      var s := Flatten(items) + rest;
      && (match items[0]
          case Noise(_) => v(s).Reject?
          case Frame(x) => v(s) == Accept(|x|))
      && Proper(v, items[1..], rest)
  }

  lemma ProperCons(v: Rule, item: Item, items: seq<Item>, rest: seq<u8>, s: seq<u8>)
    requires Sound(v) && Proper(v, items, rest) && s == Bytes(item) + (Flatten(items) + rest)
    requires match item case Noise(_) => v(s).Reject? case Frame(x) => v(s) == Accept(|x|)
    ensures Proper(v, [item] + items, rest) && Flatten([item] + items) + rest == s
  {
    FlattenCons(item, items, rest);
    assert ([item] + items)[1..] == items;
  }

  /** The batch scan is such a division and loses no byte... */
  lemma {:induction false} ScanProper(v: Rule, s: seq<u8>)
    requires Sound(v)
    ensures Flatten(Items(v, s)) + Rest(v, s) == s
    ensures Proper(v, Items(v, s), Rest(v, s))
    decreases |s|
  {
    if s != [] && !v(s).Wait? {
      var n := if v(s).Reject? then 1 else v(s).n;
      var item := if v(s).Reject? then Noise(s[0]) else Frame(s[..n]);
      ScanProper(v, s[n..]);
      assert s == Bytes(item) + s[n..];
      ProperCons(v, item, Items(v, s[n..]), Rest(v, s[n..]), s);
    }
  }

  lemma Split(a: seq<u8>, b: seq<u8>)
    ensures (a + b)[|a|..] == b && (a + b)[..|a|] == a
  {
  }

  lemma Assoc<T>(a: seq<T>, b: seq<T>, c: seq<T>)
    ensures (a + b) + c == a + (b + c)
  {
  }

  /** ... and there is no other. */
  lemma {:induction false} ScanUnique(v: Rule, items: seq<Item>, rest: seq<u8>)
    requires Sound(v) && Proper(v, items, rest)
    ensures Items(v, Flatten(items) + rest) == items && Rest(v, Flatten(items) + rest) == rest
    decreases |items|
  {
    if items == [] {
      assert Flatten(items) + rest == rest;
    } else {
      hide Flatten, Sound, Items, Rest, Proper;
      var item, tail := items[0], Flatten(items[1..]) + rest;
      ProperHead(v, items, rest);
      ScanUnique(v, items[1..], rest);
      ScanOne(v, item, tail);
    }
  }

  lemma ScanOne(v: Rule, item: Item, tail: seq<u8>)
    requires Sound(v)
    requires var s := Bytes(item) + tail; match item case Noise(_) => v(s).Reject? case Frame(x) => v(s) == Accept(|x|)
    ensures Items(v, Bytes(item) + tail) == [item] + Items(v, tail) && Rest(v, Bytes(item) + tail) == Rest(v, tail)
  {
    var s := Bytes(item) + tail;
    Split(Bytes(item), tail);
    match item
    case Noise(b) =>
      assert s != [] && s[0] == b;
    case Frame(x) =>
      assert s != [];
  }

  lemma ProperHead(v: Rule, items: seq<Item>, rest: seq<u8>)
    requires Proper(v, items, rest) && items != []
    ensures var s := Bytes(items[0]) + (Flatten(items[1..]) + rest);
      && Flatten(items) + rest == s && Proper(v, items[1..], rest) && items == [items[0]] + items[1..]
      && (match items[0] case Noise(_) => v(s).Reject? case Frame(x) => v(s) == Accept(|x|))
  {
    assert items == [items[0]] + items[1..];
    FlattenCons(items[0], items[1..], rest);
  }

  /** No byte a frame starts at is ever dropped, however deep inside a rejected
      candidate it lies, and only frames are delivered: judged against the whole
      of the stream from that byte on. */
  lemma {:induction false} NothingLost(v: Rule, items: seq<Item>, rest: seq<u8>, i: nat)
    requires Sound(v) && Proper(v, items, rest) && i < |items|
    ensures var s := Flatten(items[i..]) + rest;
      && Flatten(items) + rest == Flatten(items[..i]) + s
      && (items[i].Noise? ==> v(s).Reject?)
      && (items[i].Frame? ==> v(s) == Accept(|items[i].bytes|) && items[i].bytes <= s)
  {
    hide Flatten, Proper;
    assert items == items[..i] + items[i..];
    FlattenAppend(items[..i], items[i..]);
    Assoc(Flatten(items[..i]), Flatten(items[i..]), rest);
    ProperHead(v, items, rest);
    if i == 0 {
      assert items[i..] == items;
    } else {
      assert items[1..][i - 1..] == items[i..];
      NothingLost(v, items[1..], rest, i - 1);
    }
  }

  // ---- A parser's account of its stream -------------------------------------

  /** What a parser has emitted so far and still holds, against what it was
      given: nothing lost, nothing made up, and nothing decided differently
      from the batch scan of all of it. */
  ghost predicate Accounts(v: Rule, received: seq<u8>, items: seq<Item>, held: seq<u8>)
    requires Sound(v)
  {
    && received == Flatten(items) + held
    && Items(v, received) == items + Items(v, held)
    && Rest(v, received) == Rest(v, held)
  }

  lemma AccountsByte(v: Rule, received: seq<u8>, items: seq<Item>, held: seq<u8>, b: u8)
    requires Sound(v) && Stable(v) && Accounts(v, received, items, held)
    ensures Accounts(v, received + [b], items, held + [b])
  {
    hide Items, Rest, Flatten, Sound, Stable;
    ScanResumes(v, received, [b]);
    ScanResumes(v, held, [b]);
    Assoc(items, Items(v, held), Items(v, Rest(v, held) + [b]));
    Assoc(Flatten(items), held, [b]);
  }

  lemma AccountsStep(v: Rule, received: seq<u8>, items: seq<Item>, held: seq<u8>, n: nat, item: Item)
    requires Sound(v) && Accounts(v, received, items, held) && held != [] && !v(held).Wait?
    requires n == (if v(held).Reject? then 1 else v(held).n)
    requires item == (if v(held).Reject? then Noise(held[0]) else Frame(held[..n]))
    ensures n <= |held| && Accounts(v, received, items + [item], held[n..])
  {
    Step(v, held, n, item);
    hide Items, Rest, Flatten, Sound;
    FlattenAppend(items, [item]);
    FlattenCons(item, [], []);
    Assoc(Flatten(items), Bytes(item), held[n..]);
    Assoc(items, [item], Items(v, held[n..]));
  }

  lemma Step(v: Rule, held: seq<u8>, n: nat, item: Item)
    requires Sound(v) && held != [] && !v(held).Wait?
    requires n == (if v(held).Reject? then 1 else v(held).n)
    requires item == (if v(held).Reject? then Noise(held[0]) else Frame(held[..n]))
    ensures n <= |held| && held == Bytes(item) + held[n..] && Flatten([item]) == Bytes(item)
    ensures Items(v, held) == [item] + Items(v, held[n..]) && Rest(v, held) == Rest(v, held[n..])
  {
  }

  // The three ways on from a parser's front, in the form a parser uses them.

  lemma RejectByte(v: Rule, received: seq<u8>, items: seq<Item>, held: seq<u8>)
    requires Sound(v) && Accounts(v, received, items, held) && held != [] && v(held).Reject?
    ensures Accounts(v, received, items + [Noise(held[0])], held[1..])
    ensures NoiseCount(items + [Noise(held[0])]) == NoiseCount(items) + 1
    ensures Frames(items + [Noise(held[0])]) == Frames(items)
  {
    FlattenAppend(items, [Noise(held[0])]);
    AccountsStep(v, received, items, held, 1, Noise(held[0]));
  }

  lemma AcceptFrame(v: Rule, received: seq<u8>, items: seq<Item>, held: seq<u8>, n: nat)
    requires Sound(v) && Accounts(v, received, items, held) && held != [] && v(held) == Accept(n)
    ensures n <= |held| && Accounts(v, received, items + [Frame(held[..n])], held[n..])
    ensures NoiseCount(items + [Frame(held[..n])]) == NoiseCount(items)
    ensures Frames(items + [Frame(held[..n])]) == Frames(items) + [held[..n]]
  {
    FlattenAppend(items, [Frame(held[..n])]);
    AccountsStep(v, received, items, held, n, Frame(held[..n]));
  }

  lemma Waiting(v: Rule, received: seq<u8>, items: seq<Item>, held: seq<u8>)
    requires Sound(v) && Accounts(v, received, items, held) && (held == [] || v(held).Wait?)
    ensures Items(v, received) == items && Rest(v, received) == held
  {
  }

  /** What a scan waits on, it would wait on again. */
  lemma {:induction false} ScanRest(v: Rule, s: seq<u8>)
    requires Sound(v)
    ensures Items(v, Rest(v, s)) == [] && Rest(v, Rest(v, s)) == Rest(v, s)
    ensures Accounts(v, s, Items(v, s), Rest(v, s))
    decreases |s|
  {
    ScanProper(v, s);
    if s != [] && !v(s).Wait? {
      var n := if v(s).Reject? then 1 else v(s).n;
      ScanRest(v, s[n..]);
    }
    assert Items(v, s) + [] == Items(v, s);
  }

  lemma SubSlice(a: array<u8>, from: nat, to: nat, i: nat, j: nat)
    requires from <= to <= a.Length && i <= j <= to - from
    ensures a[from..to][i..j] == a[from + i..from + j]
  {
    var x, y := a[from..to][i..j], a[from + i..from + j];
    forall k | 0 <= k < j - i
      ensures x[k] == y[k]
    {
      assert x[k] == a[from..to][i + k] == a[from + i + k];
    }
    assert x == y;
  }
}
