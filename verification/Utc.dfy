/** Counting UTC seconds through a leap second (platform/utc.c). */
module Utc {
  import opened MachineWords

  /** An announced leap second. change 0: none; the C code passes NULL for it. */
  datatype UtcLeap = UtcLeap(event: u32, change: int)

  const NO_LEAP: UtcLeap := UtcLeap(0, 0)

  /** A second: Unix seconds, and whether it is the inserted 23:59:60. */
  datatype Label = Label(utc: u32, leap: bool)

  /** utc_advance() */
  function Advance(at: Label, seconds: u32, leap: UtcLeap): Label {
    var result := Wrap32(at.utc + seconds);
    var isLeap := at.leap && seconds == 0;
    if seconds > 0 && leap.change > 0 && !at.leap && at.utc < leap.event && result >= leap.event then
      Label(Wrap32(result - 1), result == leap.event)
    else if seconds > 0 && leap.change < 0 && at.utc < Wrap32(leap.event - 1) && result >= Wrap32(leap.event - 1) then
      Label(Wrap32(result + 1), isLeap)
    else
      Label(result, isLeap)
  }

  // ---- The timeline, one number per real second -----------------------------

  /** The seconds that happen when this leap second does: E-1 twice, or not at all. */
  predicate Happens(at: Label, leap: UtcLeap) {
    && (at.leap ==> leap.change > 0 && at.utc + 1 == leap.event)
    && (leap.change < 0 ==> leap.event > 0 && at.utc + 1 != leap.event)
  }

  /** Real seconds before this one. */
  function Elapsed(at: Label, leap: UtcLeap): int {
    if leap.change > 0 then (if at.leap || at.utc >= leap.event then at.utc + 1 else at.utc)
    else if leap.change < 0 then (if at.utc >= leap.event then at.utc - 1 else at.utc)
    else at.utc
  }

  /** Advancing is moving along the timeline: the same number of real seconds,
      through the inserted or deleted one. */
  lemma AdvanceCounts(at: Label, seconds: u32, leap: UtcLeap)
    requires Happens(at, leap) && at.utc + seconds + 1 < U32
    ensures Happens(Advance(at, seconds, leap), leap)
    ensures Elapsed(Advance(at, seconds, leap), leap) == Elapsed(at, leap) + seconds
  {
  }

  /** ... and nothing else is: each second happens once. */
  lemma ElapsedInjective(a: Label, b: Label, leap: UtcLeap)
    requires Happens(a, leap) && Happens(b, leap) && Elapsed(a, leap) == Elapsed(b, leap)
    ensures a == b
  {
  }

  /** No sum in the two steps reaches the end of the 32-bit count. */
  predicate Room(at: Label, a: u32, b: u32, leap: UtcLeap) {
    at.utc + a + b + (if leap.change < 0 then 1 else 0) < U32
  }

  // Without the wrap-around.
  lemma AdvancePlain(at: Label, s: u32, leap: UtcLeap)
    requires leap.change < 0 ==> leap.event > 0
    requires Room(at, s, 0, leap)
    ensures var u := at.utc + s;
      Advance(at, s, leap) ==
        if s > 0 && leap.change > 0 && !at.leap && at.utc < leap.event <= u then Label(u - 1, u == leap.event)
        else if s > 0 && leap.change < 0 && at.utc < leap.event - 1 <= u then Label(u + 1, false)
        else Label(u, at.leap && s == 0)
  {
    assert Wrap32(at.utc + s) == at.utc + s;
  }

  // Past a deleted second, to the last of the count.
  lemma AtTheEnd(at: Label, s: u32, leap: UtcLeap)
    requires leap.change < 0 && 0 < leap.event <= at.utc && at.utc + s < U32
    ensures Advance(at, s, leap) == Label(at.utc + s, at.leap && s == 0)
  {
  }

  lemma Composes(at: Label, a: u32, b: u32, leap: UtcLeap)
    requires leap.change < 0 ==> leap.event > 0
    requires Room(at, a, b, leap) && !(leap.change > 0 && at.leap && at.utc + 1 < leap.event)
    ensures Advance(Advance(at, a, leap), b, leap) == Advance(at, a + b, leap)
  {
    AdvancePlain(at, a, leap);
    AdvancePlain(at, a + b, leap);
    var m := Advance(at, a, leap);
    if Room(m, b, 0, leap) {
      AdvancePlain(m, b, leap);
      hide Advance;
    } else {
      AtTheEnd(m, b, leap);
      hide Advance;
    }
  }

  /** Exactly when advancing composes: unless a label is flagged as a leap second
      that is not the announced one, before it. */
  lemma AdvanceComposes(at: Label, leap: UtcLeap)
    requires leap.change < 0 ==> leap.event > 0
    ensures (forall a: u32, b: u32 :: Room(at, a, b, leap) ==>
              Advance(Advance(at, a, leap), b, leap) == Advance(at, a + b, leap))
       <==> !(leap.change > 0 && at.leap && at.utc + 1 < leap.event)
  {
    if leap.change > 0 && at.leap && at.utc + 1 < leap.event {
      var b: u32 := leap.event - at.utc - 1;
      assert Room(at, 1, b, leap);
      assert Advance(Advance(at, 1, leap), b, leap) == Label(leap.event - 1, true);
      assert Advance(at, 1 + b, leap) == Label(leap.event, false);
    } else {
      hide Advance;
      forall a: u32, b: u32 | Room(at, a, b, leap)
        ensures Advance(Advance(at, a, leap), b, leap) == Advance(at, a + b, leap)
      {
        Composes(at, a, b, leap);
      }
    }
  }

  /** keep_time() with no source in use: each epoch counts one second on. */
  function CountOn(at: Label, epochs: nat, leap: UtcLeap): Label {
    if epochs == 0 then at else Advance(CountOn(at, epochs - 1, leap), 1, leap)
  }

  /** n free-running epochs are one advance by n. */
  lemma {:induction false} CountOnAdvances(at: Label, epochs: nat, leap: UtcLeap)
    requires Happens(at, leap) && at.utc + epochs + 1 < U32
    ensures CountOn(at, epochs, leap) == Advance(at, epochs, leap)
  {
    if epochs > 0 {
      CountOnAdvances(at, epochs - 1, leap);
      Composes(at, epochs - 1, 1, leap);
    }
  }
}
