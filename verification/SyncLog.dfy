/** What the synchroniser (sync/sync.c) does, as logs that a run builds up, and
    what they promise. */
module SyncLog {
  import opened MachineWords

  const GNSS: nat := 0
  const NTP: nat := 1
  const RTC: nat := 2
  const COUNT: nat := 3
  const NONE: nat := 3
  const HOLDOVER_CANDIDATE: nat := 4

  /** A row of the table of sources. */
  datatype Definition = Definition(
    qualifyNs: u32, holdNs: u32, boundScale: nat, boundFloorNs: nat, gateTicks: int, holdoverFrequencyNs: u32,
    steers: bool)

  function Source(index: nat): Definition {
    if index == GNSS then Definition(10000, 100000, 3, 25, 16, 40, true)
    else if index == NTP then Definition(50000000, 100000000, 1, 20000, 12000, 1000, true)
    else Definition(1000000000, 1000000000, 1, 0, 0, 0, false)
  }

  /** sync_source_steers() */
  predicate Steers(source: nat) {
    source < COUNT && Source(source).steers
  }

  datatype State = FreeRun | Acquire | Locked | Holdover

  datatype Reason = Qualified | Tracking | PhaseLost | SourceLost | SourceBack | Alternative | BetterSource
                  | Expired | Resync

  /** A state change, and the number of epochs completed before its own. */
  datatype Transition = Transition(epoch: nat, from: State, to: State, source: nat, reason: Reason)

  /** What is asked of the control loop besides its update. */
  datatype Action = FreeRunStep(aligning: bool, ticks: int) | Restart(source: nat, slew: bool)

  /** The challenge of one epoch, if any: stay is the number of state changes
      before it, so equal stays are one uninterrupted stay in a state. */
  datatype Contest = Contest(stay: nat, challenger: nat, bound: u32, incumbent: u32, won: bool)

  const SWITCH_EPOCHS: nat := 10
  const SWITCH_RATIO: nat := 2

  // ---- No flapping ------------------------------------------------------------

  predicate Beats(c: Contest) {
    c.challenger < COUNT && c.bound * SWITCH_RATIO < c.incumbent
  }

  /** The epoch ends ten in a row in which the same challenger's bound was under
      half the bound in use, in one stay. */
  predicate TenInARow(log: seq<Contest>, i: nat)
    requires i < |log|
  {
    && i >= SWITCH_EPOCHS - 1
    && forall j :: i - (SWITCH_EPOCHS - 1) <= j <= i ==>
         log[j].challenger == log[i].challenger && log[j].stay == log[i].stay && Beats(log[j])
  }

  ghost predicate LogOk(log: seq<Contest>, stays: nat) {
    && (forall i, j :: 0 <= i <= j < |log| ==> log[i].stay <= log[j].stay)
    && (forall i :: 0 <= i < |log| ==> log[i].stay <= stays)
    && (forall i :: 0 <= i < |log| && log[i].won ==> log[i].stay < stays && TenInARow(log, i))
    && (forall i, j :: 0 <= i < j < |log| && log[i].won ==> log[i].stay < log[j].stay)
  }

  /** The last epochs are the challenger's run so far. */
  ghost predicate RunOk(log: seq<Contest>, stays: nat, challenger: nat, run: nat) {
    && run <= |log| && (run > 0 ==> challenger < COUNT)
    && forall j :: |log| - run <= j < |log| ==>
         log[j].challenger == challenger && log[j].stay == stays && Beats(log[j])
  }

  lemma LogQuiet(log: seq<Contest>, stays: nat, c: Contest)
    requires LogOk(log, stays) && !c.won && c.stay == stays
    ensures LogOk(log + [c], stays)
  {
    TenKept(log, c);
  }

  lemma TenKept(log: seq<Contest>, c: Contest)
    ensures forall i :: 0 <= i < |log| && TenInARow(log, i) ==> TenInARow(log + [c], i)
  {
  }

  lemma RunGrows(log: seq<Contest>, stays: nat, challenger: nat, run: nat, c: Contest)
    requires RunOk(log, stays, challenger, run) && c.stay == stays && c.challenger == challenger && Beats(c)
    ensures RunOk(log + [c], stays, challenger, run + 1)
    ensures run + 1 >= SWITCH_EPOCHS ==> TenInARow(log + [c], |log|)
  {
  }

  lemma RunStarts(log: seq<Contest>, stays: nat, c: Contest)
    requires c.stay == stays && Beats(c)
    ensures RunOk(log + [c], stays, c.challenger, 1)
  {
  }

  /** A won contest is followed by a state change. */
  lemma LogWon(log: seq<Contest>, stays: nat, c: Contest)
    requires LogOk(log, stays) && c.won && c.stay == stays && TenInARow(log + [c], |log|)
    ensures LogOk(log + [c], stays + 1)
  {
    TenKept(log, c);
  }

  lemma LogStay(log: seq<Contest>, stays: nat)
    requires LogOk(log, stays)
    ensures LogOk(log, stays + 1)
  {
  }

  // ---- State changes ------------------------------------------------------------

  /** A state change the design allows. */
  predicate Allowed(t: Transition) {
    var tracking := t.from == Acquire || t.from == Locked;
    && (if t.to == FreeRun then t.source == NONE else Steers(t.source))
    && match t.reason {
      case Qualified => t.from == FreeRun && t.to == Acquire
      case Tracking => t.from == Acquire && t.to == Locked
      case PhaseLost => t.from == Locked && t.to == Acquire
      case SourceLost => tracking && (t.to == Holdover || t.to == FreeRun)
      case SourceBack => t.from == Holdover && (t.to == Locked || t.to == Acquire)
      case Alternative => t.from != FreeRun && t.to == Acquire
      case BetterSource => tracking && t.to == Acquire
      case Expired => t.from == Holdover && t.to == FreeRun
      case Resync => t.to == FreeRun
    }
  }

  /** Taken over by a challenge. */
  predicate Challenged(t: Transition) {
    t.reason == BetterSource || (t.reason == Alternative && t.from == Holdover)
  }

  ghost predicate TransitionsOk(ts: seq<Transition>, log: seq<Contest>, state: State) {
    && (forall a :: 0 <= a < |ts| ==> Allowed(ts[a]))
    && (forall a, b :: 0 <= a && b == a + 1 && b < |ts| ==> ts[a].to == ts[b].from)
    && (if ts == [] then state == FreeRun else ts[0].from == FreeRun && ts[|ts| - 1].to == state)
    && (forall a :: 0 <= a < |ts| && Challenged(ts[a]) ==>
          && ts[a].epoch < |log| && log[ts[a].epoch].won && log[ts[a].epoch].stay == a
          && log[ts[a].epoch].challenger == ts[a].source)
  }

  lemma TransitionAdded(ts: seq<Transition>, log: seq<Contest>, state: State, t: Transition)
    requires TransitionsOk(ts, log, state) && t.from == state && Allowed(t)
    requires Challenged(t) ==>
               && t.epoch < |log| && log[t.epoch].won && log[t.epoch].stay == |ts|
               && log[t.epoch].challenger == t.source
    ensures TransitionsOk(ts + [t], log, t.to)
  {
    hide Allowed, Challenged;
    forall a, b | 0 <= a && b == a + 1 && b < |ts + [t]|
      ensures (ts + [t])[a].to == (ts + [t])[b].from
    {
      if b < |ts| {
        assert ts[a].to == ts[b].from;
      }
    }
  }

  lemma TransitionsKept(ts: seq<Transition>, log: seq<Contest>, state: State, c: Contest)
    requires TransitionsOk(ts, log, state)
    ensures TransitionsOk(ts, log + [c], state)
  {
    hide Allowed;
  }

  /** An epoch whose contest leaves no challenger. */
  lemma NoContest(log: seq<Contest>, ts: seq<Transition>, state: State, c: Contest)
    requires LogOk(log, |ts|) && TransitionsOk(ts, log, state) && !c.won && c.stay == |ts|
    ensures LogOk(log + [c], |ts|) && TransitionsOk(ts, log + [c], state) && RunOk(log + [c], |ts|, NONE, 0)
  {
    LogQuiet(log, |ts|, c);
    TransitionsKept(ts, log, state, c);
    hide LogOk, TransitionsOk;
  }

  /** A contest that prolongs the challenger's run or starts another's. */
  lemma ContestFought(log: seq<Contest>, ts: seq<Transition>, state: State, challenger: nat, run: nat, c: Contest)
    requires LogOk(log, |ts|) && TransitionsOk(ts, log, state) && RunOk(log, |ts|, challenger, run) && Beats(c)
    requires run < SWITCH_EPOCHS && c.stay == |ts|
    requires c.won <==> c.challenger == challenger && run == SWITCH_EPOCHS - 1
    ensures TransitionsOk(ts, log + [c], state)
    ensures RunOk(log + [c], |ts|, c.challenger, if c.challenger == challenger then run + 1 else 1)
    ensures LogOk(log + [c], if c.won then |ts| + 1 else |ts|)
  {
    hide LogOk, TransitionsOk, RunOk, TenInARow, Beats;
    TransitionsKept(ts, log, state, c);
    if c.challenger == challenger {
      RunGrows(log, |ts|, challenger, run, c);
    } else {
      RunStarts(log, |ts|, c);
    }
    if c.won {
      LogWon(log, |ts|, c);
    } else {
      LogQuiet(log, |ts|, c);
    }
  }

  /** In every run, each takeover by a challenge ends ten epochs in a row, in one
      uninterrupted stay, in which its bound was under half the bound in use; so
      two takeovers are at least ten epochs apart. */
  lemma NoFlapping(ts: seq<Transition>, log: seq<Contest>, stays: nat, state: State)
    requires TransitionsOk(ts, log, state) && LogOk(log, stays)
    ensures forall a :: 0 <= a < |ts| && Challenged(ts[a]) ==>
              ts[a].epoch < |log| && TenInARow(log, ts[a].epoch) && log[ts[a].epoch].challenger == ts[a].source
    ensures forall a, b :: 0 <= a < b < |ts| && Challenged(ts[a]) && Challenged(ts[b]) ==>
              ts[b].epoch - ts[a].epoch >= SWITCH_EPOCHS
  {
    hide Challenged, Allowed;
    forall a, b | 0 <= a < b < |ts| && Challenged(ts[a]) && Challenged(ts[b])
      ensures ts[b].epoch - ts[a].epoch >= SWITCH_EPOCHS
    {
      var i, k := ts[a].epoch, ts[b].epoch;
      assert log[i].stay == a && log[k].stay == b;
      assert TenInARow(log, k);
      StaysInOrder(log, stays, i, k);
    }
  }

  lemma StaysInOrder(log: seq<Contest>, stays: nat, i: nat, k: nat)
    requires LogOk(log, stays) && i < |log| && k < |log| && log[k].won
    ensures i < k || log[k].stay <= log[i].stay
    ensures k - (SWITCH_EPOCHS - 1) <= i <= k ==> log[i].stay == log[k].stay
  {
    assert TenInARow(log, k);
  }

  // ---- Free-run steps -----------------------------------------------------------

  ghost predicate ActionsOk(actions: seq<Action>, steered: bool, aligned: bool) {
    // After the first restart, which steering begins with, no step is ever asked for;
    && (forall i, j :: 0 <= i < j < |actions| && actions[i].Restart? ==> actions[j].Restart?)
    && (steered <==> exists i :: 0 <= i < |actions| && actions[i].Restart?)
    // and the time of day is aligned to once at most, and not after any other step.
    && (forall i, j :: 0 <= i < j < |actions| && actions[i].FreeRunStep? && actions[j].FreeRunStep? ==> !actions[j].aligning)
    && (aligned <==> exists i :: 0 <= i < |actions| && actions[i].FreeRunStep?)
  }

  lemma RestartAdded(actions: seq<Action>, steered: bool, aligned: bool, a: Action)
    requires ActionsOk(actions, steered, aligned) && a.Restart?
    ensures ActionsOk(actions + [a], true, aligned)
  {
    var after := actions + [a];
    assert after[|actions|].Restart?;
    if i :| 0 <= i < |actions| && actions[i].FreeRunStep? {
      assert after[i].FreeRunStep?;
    }
  }

  lemma StepAdded(actions: seq<Action>, aligned: bool, a: Action)
    requires ActionsOk(actions, false, aligned) && a.FreeRunStep? && (aligned ==> !a.aligning)
    ensures ActionsOk(actions + [a], false, true)
  {
    var after := actions + [a];
    assert after[|actions|].FreeRunStep?;
  }

  // ---- The holdover bound ---------------------------------------------------------

  const BOUND_NONE: u32 := 0xFFFF_FFFF
  const SYNCHRONISED_LIMIT_NS: u32 := 100_000_000
  const U64: int := 0x1_0000_0000_0000_0000

  /** saturate() */
  function Saturate(value: nat): u32 {
    if value >= BOUND_NONE then BOUND_NONE - 1 else value
  }

  /** u0 + f.t + D.t^2/2, rounded down: the bound intended. */
  function HeldBound(base: u32, frequency: u32, age: u32): nat {
    Product(frequency, age, frequency, age);
    Product(5 * age, age, 5 * age, age);
    base + frequency * age + 5 * age * age / 2000
  }

  /** update_holdover_bound(), in its 64-bit arithmetic. */
  function HeldWord(base: u32, frequency: u32, age: u32): u32 {
    Product(frequency, age, frequency, age);
    Product(5 * age, age, 5 * age, age);
    Saturate((base + frequency * age + (5 * age * age) % U64 / 2000) % U64)
  }

  lemma Product(a: nat, b: nat, aTop: nat, bTop: nat)
    requires a <= aTop && b <= bTop
    ensures 0 <= a * b <= aTop * bTop
  {
    assert a * b <= aTop * b;
    assert aTop * b <= aTop * bTop;
  }

  /** The 64-bit arithmetic gives the bound intended, at every age there is,
      whatever steering source it is held over from: its square overflows only
      once the bound is long past what it can show. */
  lemma HeldWordExact(base: u32, frequency: u32, age: u32)
    requires 40 <= frequency <= 1000
    ensures HeldWord(base, frequency, age) == Saturate(HeldBound(base, frequency, age))
  {
    Products(frequency, age);
    Sums(base, frequency * age, 5 * age * age);
  }

  lemma Products(frequency: u32, age: u32)
    requires 40 <= frequency <= 1000
    ensures 0 <= frequency * age <= 1000 * U32 && 0 <= 5 * age * age
    ensures 5 * age * age >= U64 ==> frequency * age >= U32
  {
    Product(frequency, age, 1000, U32);
    Product(5 * age, age, 5 * age, age);
    if age <= 1_900_000_000 {
      Product(5 * age, age, 9_500_000_000, 1_900_000_000);
    } else {
      Product(40, age, frequency, age);
    }
  }

  lemma Sums(base: u32, drift: nat, square: nat)
    requires drift <= 1000 * U32 && (square >= U64 ==> drift >= U32)
    ensures Saturate((base + drift + square % U64 / 2000) % U64) == Saturate(base + drift + square / 2000)
  {
    if square < U64 && drift < U32 {
      assert square % U64 == square;
    } else {
      assert base + drift + square % U64 / 2000 < 2 * U64;
    }
  }

  /** It never falls as the age grows. */
  lemma HeldBoundGrows(base: u32, frequency: u32, age: u32, later: u32)
    requires age <= later
    ensures HeldBound(base, frequency, age) <= HeldBound(base, frequency, later)
  {
    Product(frequency, age, frequency, later);
    Product(5 * age, age, 5 * later, later);
    var a, b := 5 * age * age, 5 * later * later;
    assert a / 2000 <= b / 2000;
  }

  /** Within the limit of what counts as synchronised it is under 200,000 epochs old. */
  lemma HeldExpires(base: u32, frequency: u32, age: u32)
    requires 40 <= frequency <= 1000 && HeldWord(base, frequency, age) <= SYNCHRONISED_LIMIT_NS
    ensures age < 200_000
  {
    HeldWordExact(base, frequency, age);
    if age >= 200_000 {
      HeldBoundGrows(base, frequency, 200_000, age);
    }
  }
}
