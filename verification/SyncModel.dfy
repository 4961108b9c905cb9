/** The synchroniser (sync/sync.c) from one epoch to the next: the source followed,
    and the time of day. */
module SyncModel {
  import opened MachineWords
  import opened Utc
  import opened SyncSource
  import opened SyncLog

  const QUALIFY_EPOCHS: nat := 3
  const ALIGN_WAIT_EPOCHS: nat := 6
  const NOMINAL_TICKS: int := 40_000_000
  const TICKS_PER_MS: int := 40_000
  const RESOLUTION_NS: int := 25

  // ---- What an epoch brings -----------------------------------------------------

  /** The epoch: its number, and our edge on the capture timebase. */
  datatype Snapshot = Snapshot(sequence: u32, captureValid: bool, capture: u32)

  /** What the control loop did in an epoch. */
  datatype LoopUpdate = LoopUpdate(measured: bool, phaseValid: bool, offsetTicks: Ticks)

  /** The control loop, as the synchroniser sees it in one epoch: any loop at all.
      tracksBefore is read before its update, the rest after. */
  datatype Loop = Loop(tracksBefore: bool, update: LoopUpdate, tracks: bool, lastResync: u32)

  /** One of a kind for each source. */
  datatype Each<T> = Each(gnss: T, ntp: T, rtc: T) {
    function At(index: nat): T {
      if index == GNSS then gnss else if index == NTP then ntp else rtc
    }
  }

  // ---- What is kept -----------------------------------------------------------------

  /** The state machine, and what it has done so far. */
  datatype Machine = Machine(
    state: State, source: nat, fallback: bool, challenger: nat, challengeRun: u16,
    steered: bool, aligned: bool, resyncSlew: bool,
    transitions: seq<Transition>, contests: seq<Contest>, actions: seq<Action>)

  /** What the holdover bound is worked out from: where it started, and its age. */
  datatype Holding = Holding(ready: bool, source: nat, age: u32, baseNs: u32, frequencyNs: u32, boundNs: u32)

  /** The time of day: the label of the current epoch, and where it came from. */
  datatype TimeOfDay = TimeOfDay(known: bool, second: Label, leap: UtcLeap, corrections: u32, source: nat)

  datatype ManualTime = ManualTime(pending: bool, utc: u32, epoch: u32, slotMs: nat)

  /** The synchroniser between two steps. */
  datatype View = View(
    machine: Machine, sources: Each<Tracker>, holdover: Holding, time: TimeOfDay, linkLeap: UtcLeap,
    epochs: u32, resyncPending: bool, manual: ManualTime)

  const NOT_HOLDING: Holding := Holding(false, 0, 0, 0, 0, BOUND_NONE)
  const AFRESH: Each<Tracker> := Each(UNHEARD, UNHEARD, UNHEARD)

  /** sync_init() */
  const INIT: View := View(
    Machine(FreeRun, NONE, false, NONE, 0, false, false, false, [], [], []), AFRESH, NOT_HOLDING,
    TimeOfDay(false, Label(0, false), NO_LEAP, 0, NONE), NO_LEAP, 0, false, ManualTime(false, 0, 0, 0))

  // ---- Arithmetic ---------------------------------------------------------------------

  /** ns_to_ticks() */
  function NsToTicks(ns: i32): int {
    TruncDiv(if ns >= 0 then ns + RESOLUTION_NS / 2 else ns - RESOLUTION_NS / 2, RESOLUTION_NS)
  }

  /** ticks_to_ns() */
  function TicksToNs(ticks: Ticks): u32 {
    Wrap32((if ticks < 0 then -ticks else ticks) * RESOLUTION_NS)
  }

  /** wrap_phase() */
  function WrapPhase(phase: i32): Ticks
  {
    if phase >= NOMINAL_TICKS / 2 then phase - NOMINAL_TICKS
    else if phase < -(NOMINAL_TICKS / 2) then phase + NOMINAL_TICKS
    else phase
  }

  /** Our epoch minus the second a report's edge marks, before folding. */
  function RawPhase(s: Snapshot, r: Report): i32 {
    Signed32(Wrap32(Signed32(Wrap32(s.capture - r.edgeStamp)) + NsToTicks(r.edgeOffsetNs)))
  }

  /** The leap second to count through: a C call passes NULL when there is none. */
  function InUse(leap: UtcLeap): UtcLeap {
    if leap.change != 0 then leap else NO_LEAP
  }

  /** Counting on is through the leap second announced, if any. */
  lemma CountsThrough(at: Label, n: u32, leap: UtcLeap)
    ensures Advance(at, n, InUse(leap)) == Advance(at, n, leap)
  {
    if leap.change != 0 {
      hide Advance;
    }
  }

  /** label_epoch(): the edge's own second, or the one after from half a second on. */
  function LabelEpoch(s: Snapshot, r: Report, leap: UtcLeap): Label {
    if s.captureValid && RawPhase(s, r) >= NOMINAL_TICKS / 2
    then Advance(Label(r.utc, r.leapSecond), 1, InUse(leap))
    else Label(r.utc, r.leapSecond)
  }

  // ---- Judging ------------------------------------------------------------------------

  function Limit(index: nat, inUse: bool): u32 {
    if inUse then Source(index).holdNs else Source(index).qualifyNs
  }

  function BoundOf(index: nat, check: Check, uncertaintyNs: u32): u32 {
    if check == Good || check == Inaccurate
    then Saturate(uncertaintyNs * Source(index).boundScale + Source(index).boundFloorNs) else 0
  }

  function PhaseOf(s: Snapshot, r: Report): Ticks {
    if r.edge && s.captureValid then WrapPhase(RawPhase(s, r)) else 0
  }

  /** A source's report judged, and its bound and phase taken. */
  function Heard(t: Tracker, index: nat, s: Snapshot, r: Report, inUse: bool): Tracker {
    var judged := Judged(t, r, Limit(index, inUse));
    judged.(boundNs := BoundOf(index, judged.check, r.uncertaintyNs), phaseValid := r.edge && s.captureValid,
            phaseTicks := PhaseOf(s, r))
  }

  /** judge_sources(): the source in use within the limit to hold, any other
      within the limit to qualify. */
  function AllHeard(sources: Each<Tracker>, s: Snapshot, reports: Each<Report>, source: nat): Each<Tracker> {
    Each(Heard(sources.gnss, GNSS, s, reports.gnss, GNSS == source),
         Heard(sources.ntp, NTP, s, reports.ntp, NTP == source),
         Heard(sources.rtc, RTC, s, reports.rtc, RTC == source))
  }

  // ---- What the judging means ------------------------------------------------------------

  const HALF_TICKS: int := 20_000_000

  /** Our epoch is d ticks after the edge, which marks a moment k ticks after its second. */
  predicate Captured(s: Snapshot, r: Report, d: int, k: int) {
    && r.edge && s.captureValid && s.capture == Wrap32(r.edgeStamp + d) && r.edgeOffsetNs == RESOLUTION_NS * k
    && -0x8000_0000 <= d < 0x8000_0000 && -0x8000_0000 <= d + k < 0x8000_0000
  }

  lemma RawPhaseIs(s: Snapshot, r: Report, d: int, k: int)
    requires Captured(s, r, d, k)
    ensures RawPhase(s, r) == d + k
  {
    Rewrapped(r.edgeStamp, d);
    WholeTicks(k);
    SignedIs(d);
    SignedIs(d + k);
  }

  lemma SignedIs(x: int)
    requires -0x8000_0000 <= x < 0x8000_0000
    ensures Signed32(Wrap32(x)) == x
  {
  }

  lemma Rewrapped(a: int, d: int)
    ensures Wrap32(Wrap32(a + d) - a) == Wrap32(d)
  {
  }

  lemma WholeTicks(k: int)
    requires -0x8000_0000 <= RESOLUTION_NS * k < 0x8000_0000
    ensures NsToTicks(RESOLUTION_NS * k) == k
  {
  }

  /** An offset in ns is taken to the nearest tick. */
  lemma NearestTick(ns: i32)
    ensures -12 <= RESOLUTION_NS * NsToTicks(ns) - ns <= 12
  {
  }

  /** The phase is how far our epoch is after the second of the source, if that is
      within half a second; else that less or more a second. */
  lemma PhaseIs(s: Snapshot, r: Report, d: int, k: int)
    requires Captured(s, r, d, k) && -3 * HALF_TICKS <= d + k < 3 * HALF_TICKS
    ensures -HALF_TICKS <= PhaseOf(s, r) < HALF_TICKS
    ensures -HALF_TICKS <= d + k < HALF_TICKS ==> PhaseOf(s, r) == d + k
    ensures d + k >= HALF_TICKS ==> PhaseOf(s, r) == d + k - 2 * HALF_TICKS
    ensures d + k < -HALF_TICKS ==> PhaseOf(s, r) == d + k + 2 * HALF_TICKS
  {
    RawPhaseIs(s, r, d, k);
    hide RawPhase;
  }

  /** An epoch is labelled with the second it is nearest: the one the edge is of, or
      the next, through any leap second. */
  lemma LabelIsNearest(s: Snapshot, r: Report, leap: UtcLeap, d: int, k: int)
    requires Captured(s, r, d, k) && -HALF_TICKS <= d + k < 3 * HALF_TICKS
    ensures var seconds := if d + k < HALF_TICKS then 0 else 1;
      && LabelEpoch(s, r, leap) == Advance(Label(r.utc, r.leapSecond), seconds, InUse(leap))
      && -HALF_TICKS <= d + k - seconds * 2 * HALF_TICKS < HALF_TICKS
  {
    RawPhaseIs(s, r, d, k);
    hide RawPhase;
  }

  /** Moved by the step the alignment asks for, the epoch is on the second. */
  lemma StepsOntoSecond(s: Snapshot, r: Report, d: int, k: int, moved: Snapshot)
    requires Captured(s, r, d, k) && -HALF_TICKS <= d + k < HALF_TICKS && -HALF_TICKS <= k <= HALF_TICKS
    requires moved == s.(capture := Wrap32(s.capture - PhaseOf(s, r)))
    ensures PhaseOf(moved, r) == 0
  {
    PhaseIs(s, r, d, k);
    Twice(r.edgeStamp, d, PhaseOf(s, r));
    PhaseIs(moved, r, d - PhaseOf(s, r), k);
    hide PhaseOf;
  }

  lemma Twice(a: int, d: int, p: int)
    ensures Wrap32(Wrap32(a + d) - p) == Wrap32(a + (d - p))
  {
  }

  /** The limits of the design: GNSS within 10 us to be taken up and 100 us to be
      kept, NTP 50 ms and 100 ms, the RTC a second. */
  lemma GoodWithin(t: Tracker, index: nat, s: Snapshot, r: Report, inUse: bool)
    requires index < COUNT
    ensures var limit := if index == GNSS then (if inUse then 100_000 else 10_000)
                         else if index == NTP then (if inUse then 100_000_000 else 50_000_000) else 1_000_000_000;
      var check := Heard(t, index, s, r, inUse).check;
      && (check == Good <==> Labels(r) && Follows(t, r) && r.uncertaintyNs <= limit)
      && (check == Inaccurate <==> Labels(r) && r.uncertaintyNs > limit)
  {
    hide Follows, PhaseOf, BoundOf, RunOf;
  }

  /** The bound of a usable source: three times its uncertainty and a tick for GNSS,
      20 us for the jitter of NTP, the RTC's own; less than NONE at any uncertainty. */
  lemma BoundIs(t: Tracker, index: nat, s: Snapshot, r: Report, inUse: bool)
    requires index < COUNT
    ensures var h := Heard(t, index, s, r, inUse);
      var exact := if index == GNSS then 3 * r.uncertaintyNs + 25
                   else if index == NTP then r.uncertaintyNs + 20_000 else r.uncertaintyNs;
      && (h.check == Good || h.check == Inaccurate ==>
            h.boundNs < BOUND_NONE && h.boundNs == (if exact < BOUND_NONE then exact else BOUND_NONE - 1))
      && (h.check != Good && h.check != Inaccurate ==> h.boundNs == 0)
  {
    hide Follows, PhaseOf, RunOf;
  }

  // ---- Candidates -----------------------------------------------------------------------

  predicate IsTracking(m: Machine) {
    m.state == Acquire || m.state == Locked
  }

  predicate SourceGood(v: View, index: nat) {
    index < COUNT && v.sources.At(index).check == Good
  }

  /** source_usable(): GOOD, or an INACCURATE fallback. */
  predicate SourceUsable(v: View, index: nat) {
    SourceGood(v, index)
    || (index < COUNT && index == v.machine.source && v.machine.fallback && v.sources.At(index).check == Inaccurate)
  }

  /** sync_candidate_bound() */
  function CandidateBound(v: View, candidate: nat): u32 {
    if candidate == HOLDOVER_CANDIDATE then
      if v.holdover.ready && v.holdover.boundNs <= SYNCHRONISED_LIMIT_NS then v.holdover.boundNs else BOUND_NONE
    else if !Steers(candidate) then BOUND_NONE
    else if candidate == v.machine.source && IsTracking(v.machine) then
      if SourceUsable(v, candidate) then v.sources.At(candidate).boundNs else BOUND_NONE
    else if !SourceGood(v, candidate) || v.sources.At(candidate).goodRun < QUALIFY_EPOCHS then BOUND_NONE
    else v.sources.At(candidate).boundNs
  }

  /** current_bound() */
  function CurrentBound(v: View): u32 {
    if IsTracking(v.machine) then CandidateBound(v, v.machine.source)
    else if v.machine.state == Holdover then v.holdover.boundNs
    else BOUND_NONE
  }

  /** The best of the first n sources, but for one. */
  function BestOf(v: View, except: nat, n: nat): (best: nat)
    ensures best == NONE || best < n
  {
    if n == 0 then NONE
    else
      var best := BestOf(v, except, n - 1);
      var least := if best == NONE then BOUND_NONE else CandidateBound(v, best);
      if n - 1 != except && CandidateBound(v, n - 1) < least then n - 1 else best
  }

  /** best_source() */
  function Best(v: View, except: nat): nat {
    BestOf(v, except, COUNT)
  }

  /** A least element of the first n candidates, by bound and then by index, or NONE
      if there are none. */
  ghost predicate IsBest(v: View, best: nat, except: nat, n: nat) {
    && (best == NONE || (best < n && best != except && Steers(best) && CandidateBound(v, best) < BOUND_NONE))
    && forall i :: 0 <= i < n && i != except ==>
         if best == NONE then CandidateBound(v, i) == BOUND_NONE
         else CandidateBound(v, best) < CandidateBound(v, i) || (CandidateBound(v, best) == CandidateBound(v, i) && best <= i)
  }

  lemma {:induction false} BestIsBest(v: View, except: nat, n: nat)
    requires n <= COUNT
    ensures IsBest(v, BestOf(v, except, n), except, n)
  {
    if n > 0 {
      BestIsBest(v, except, n - 1);
    }
  }

  /** A candidate that is not in use has been GOOD for the last three epochs. */
  lemma QualifiedRun(v: View, index: nat)
    requires index < COUNT && TrackerOk(v.sources.At(index)) && !(index == v.machine.source && IsTracking(v.machine))
    requires CandidateBound(v, index) != BOUND_NONE
    ensures var h := v.sources.At(index).history;
      |h| >= QUALIFY_EPOCHS && forall k :: |h| - QUALIFY_EPOCHS <= k < |h| ==> h[k] == Good
  {
    TrailingAll(v.sources.At(index).history, false);
  }

  /** Neither absent nor inconsistent for three epochs, and of a source that steers. */
  predicate IsFallback(v: View, index: nat) {
    Steers(index) && v.sources.At(index).usableRun >= QUALIFY_EPOCHS && v.sources.At(index).boundNs < BOUND_NONE
  }

  function FallbackOf(v: View, n: nat): (best: nat)
    ensures best == NONE || best < n
  {
    if n == 0 then NONE
    else
      var best := FallbackOf(v, n - 1);
      var least := if best == NONE then BOUND_NONE else v.sources.At(best).boundNs;
      if IsFallback(v, n - 1) && v.sources.At(n - 1).boundNs < least then n - 1 else best
  }

  /** best_fallback() */
  function BestFallback(v: View): nat {
    FallbackOf(v, COUNT)
  }

  ghost predicate IsBestFallback(v: View, best: nat, n: nat) {
    && (best == NONE || (best < n && IsFallback(v, best)))
    && forall i :: 0 <= i < n && IsFallback(v, i) ==>
         && best != NONE
         && (v.sources.At(best).boundNs < v.sources.At(i).boundNs
             || (v.sources.At(best).boundNs == v.sources.At(i).boundNs && best <= i))
  }

  lemma {:induction false} FallbackIsBest(v: View, n: nat)
    requires n <= COUNT
    ensures IsBestFallback(v, FallbackOf(v, n), n)
  {
    if n > 0 {
      FallbackIsBest(v, n - 1);
    }
  }

  // ---- The state machine -------------------------------------------------------------------

  /** The contest of an epoch in which none is held. */
  function Unchallenged(m: Machine): Contest {
    Contest(|m.transitions|, NONE, 0, 0, false)
  }

  /** challenge(): the run of the challenger after this epoch. */
  function RunAfter(m: Machine, challenger: nat): u16 {
    if challenger == NONE then 0 else RunOf(true, if challenger == m.challenger then m.challengeRun else 0)
  }

  /** challenge(): the best candidate against the bound in use. */
  function Fight(v: View, rival: nat): Contest {
    var bound, incumbent := CandidateBound(v, rival), CurrentBound(v);
    var challenger := if bound * SWITCH_RATIO < incumbent then rival else NONE;
    Contest(|v.machine.transitions|, challenger, bound, incumbent, RunAfter(v.machine, challenger) >= SWITCH_EPOCHS)
  }

  function Fought(m: Machine, c: Contest): Machine {
    m.(challenger := c.challenger, challengeRun := RunAfter(m, c.challenger), contests := m.contests + [c])
  }

  function Passed(m: Machine): Machine {
    m.(contests := m.contests + [Unchallenged(m)])
  }

  /** enter(). epoch: how many have been completed before this one. */
  function Entered(m: Machine, to: State, next: nat, reason: Reason, epoch: nat): Machine {
    m.(state := to, source := next, fallback := m.fallback && next == m.source, challenger := NONE, challengeRun := 0,
       transitions := m.transitions + [Transition(epoch, m.state, to, next, reason)])
  }

  /** acquire() slews onto a source, without a step: our epoch is within half its gate. */
  predicate Slews(v: View, next: nat, loopTracks: bool) {
    && (v.machine.state == Locked || v.machine.state == Holdover || v.machine.resyncSlew)
    && v.sources.At(next).phaseValid && loopTracks
    && -(Source(next).gateTicks / 2) <= v.sources.At(next).phaseTicks <= Source(next).gateTicks / 2
  }

  /** acquire() */
  function Acquired(m: Machine, next: nat, reason: Reason, asFallback: bool, slew: bool, epoch: nat): Machine {
    Entered(m, Acquire, next, reason, epoch).(
      fallback := asFallback, steered := true, resyncSlew := false, actions := m.actions + [Restart(next, slew)])
  }

  /** A time-of-day source fit to align to. */
  predicate Aligns(t: Tracker) {
    (t.check == Good || t.check == Inaccurate) && t.phaseValid
  }

  /** align_to_time_of_day(), with the RTC for its only candidate. */
  function Aligned(v: View): View {
    var m := v.machine;
    if m.state == FreeRun && !m.aligned && !m.steered && Aligns(v.sources.rtc) then
      v.(machine := m.(aligned := true, actions := m.actions + [FreeRunStep(true, -v.sources.rtc.phaseTicks)]))
    else v
  }

  /** A time without an edge. */
  predicate Searching(t: Tracker) {
    t.report.present && t.report.timeValid && !t.report.edge
  }

  /** time_of_day_pending() */
  predicate TimeOfDayPending(v: View) {
    !v.machine.aligned && !v.machine.steered && v.epochs < ALIGN_WAIT_EPOCHS && Searching(v.sources.rtc)
  }

  /** Without a source: the best candidate, or failing that the best fallback,
      unless the RTC is being searched. */
  function FollowedFree(v: View, loopTracks: bool): Machine {
    var m, epoch := Passed(v.machine), |v.machine.contests|;
    var best, fallback := Best(v, NONE), BestFallback(v);
    if TimeOfDayPending(v) then m
    else if best != NONE then Acquired(m, best, Qualified, false, Slews(v, best, loopTracks), epoch)
    else if fallback != NONE then
      Acquired(m, fallback, Qualified, !SourceGood(v, fallback), Slews(v, fallback, loopTracks), epoch)
    else m
  }

  /** Following a source: kept while usable and not beaten; else holdover if it
      is worth it, else the best candidate, else free run. */
  function FollowedTracking(v: View, loopTracks: bool): Machine {
    var epoch, selected := |v.machine.contests|, v.machine.source;
    var best := Best(v, selected);
    if SourceUsable(v, selected) then
      var c := Fight(v, best);
      var m := Fought(v.machine, c);
      if c.won then Acquired(m, best, BetterSource, false, Slews(v, best, loopTracks), epoch) else m
    else if CandidateBound(v, HOLDOVER_CANDIDATE) != BOUND_NONE then
      Entered(Passed(v.machine), Holdover, v.holdover.source, SourceLost, epoch)
    else if best != NONE then
      Acquired(Passed(v.machine), best, Alternative, false, Slews(v, best, loopTracks), epoch)
    else Entered(Passed(v.machine), FreeRun, NONE, SourceLost, epoch)
  }

  /** The source held over can be gone straight back to. */
  predicate IsBack(v: View) {
    var selected := v.machine.source;
    SourceUsable(v, selected) && v.sources.At(selected).report.captured
    && v.sources.At(selected).boundNs <= v.holdover.boundNs
  }

  /** It can, once it has been captured again. */
  predicate IsUnrouted(v: View) {
    Best(v, NONE) == v.machine.source && !v.sources.At(v.machine.source).report.captured
  }

  /** Holding over: back to the source held over, or taking it up again; else to
      whatever beats holdover; else on, until it expires. */
  function FollowedHeld(v: View, loopTracks: bool): Machine {
    var epoch, selected := |v.machine.contests|, v.machine.source;
    if IsBack(v) then Entered(Passed(v.machine), Locked, selected, SourceBack, epoch)
    else if IsUnrouted(v) then
      Acquired(Passed(v.machine), selected, SourceBack, false, Slews(v, selected, loopTracks), epoch)
    else
      var best := Best(v, NONE);
      var c := Fight(v, best);
      var m := Fought(v.machine, c);
      if c.won then Acquired(m, best, Alternative, false, Slews(v, best, loopTracks), epoch)
      else if v.holdover.boundNs > SYNCHRONISED_LIMIT_NS then Entered(m, FreeRun, NONE, Expired, epoch)
      else m
  }

  /** follow_sources() */
  function Followed(v: View, loopTracks: bool): View {
    v.(machine := match v.machine.state
                  case FreeRun => FollowedFree(v, loopTracks)
                  case Acquire => FollowedTracking(v, loopTracks)
                  case Locked => FollowedTracking(v, loopTracks)
                  case Holdover => FollowedHeld(v, loopTracks))
  }

  /** The contest of an epoch. */
  function ContestOf(v: View): Contest {
    if IsTracking(v.machine) && SourceUsable(v, v.machine.source) then Fight(v, Best(v, v.machine.source))
    else if v.machine.state == Holdover && !IsBack(v) && !IsUnrouted(v) then Fight(v, Best(v, NONE))
    else Unchallenged(v.machine)
  }

  /** follow_loop(): the first measurement in tracking past the step locks. */
  function Looped(m: Machine, sequence: u32, loop: Loop, epoch: nat): Machine {
    if m.state == Acquire && loop.tracks && loop.lastResync != sequence && loop.update.measured then
      Entered(m, Locked, m.source, Tracking, epoch)
    else if m.state == Locked && !loop.tracks then Entered(m, Acquire, m.source, PhaseLost, epoch)
    else m
  }

  // ---- Holdover ----------------------------------------------------------------------------

  /** update_holdover_bound() */
  function WithBound(h: Holding): Holding {
    h.(boundNs := if h.ready then HeldWord(h.baseNs, h.frequencyNs, h.age) else BOUND_NONE)
  }

  function Aged(h: Holding): Holding {
    if h.ready && h.age < U32 - 1 then h.(age := h.age + 1) else h
  }

  /** follow_holdover(): an epoch steered while locked starts holdover afresh;
      any other ages it. */
  function Held(v: View, update: LoopUpdate): Holding {
    var source := v.machine.source;
    if v.machine.state == Locked && update.measured then
      v.holdover.(ready := true, source := source, age := 0,
                  baseNs := Saturate(v.sources.At(source).boundNs + TicksToNs(update.offsetTicks)),
                  frequencyNs := Source(source).holdoverFrequencyNs)
    else Aged(v.holdover)
  }

  /** The frequency error assumed is that of a source that steers. */
  predicate Sound(h: Holding) {
    h.ready ==> Steers(h.source) && h.frequencyNs == Source(h.source).holdoverFrequencyNs
  }

  lemma AgedBound(h: Holding)
    requires h.ready && Sound(h) && h == WithBound(h)
    ensures WithBound(Aged(h)).boundNs >= h.boundNs
    ensures h.boundNs <= SYNCHRONISED_LIMIT_NS ==> Aged(h).age <= 200_000
  {
    var later := Aged(h).age;
    HeldWordExact(h.baseNs, h.frequencyNs, h.age);
    HeldWordExact(h.baseNs, h.frequencyNs, later);
    HeldBoundGrows(h.baseNs, h.frequencyNs, h.age, later);
    if h.boundNs <= SYNCHRONISED_LIMIT_NS {
      HeldExpires(h.baseNs, h.frequencyNs, h.age);
    }
    hide HeldWord, HeldBound;
  }

  // ---- The time of day -----------------------------------------------------------------------

  /** The leap second announced with a report, or else by the link. */
  function LeapWith(r: Report, linkLeap: UtcLeap): UtcLeap {
    if r.leap.change != 0 then r.leap else linkLeap
  }

  /** Fit to give the time of day. */
  predicate Seeds(t: Tracker) {
    (t.check == Good || t.check == Inaccurate) && t.report.labelled && t.boundNs < BOUND_NONE
  }

  function SeedOf(sources: Each<Tracker>, n: nat): (best: nat)
    ensures best == NONE || best < n
  {
    if n == 0 then NONE
    else
      var best := SeedOf(sources, n - 1);
      var least := if best == NONE then BOUND_NONE else sources.At(best).boundNs;
      if Seeds(sources.At(n - 1)) && sources.At(n - 1).boundNs < least then n - 1 else best
  }

  /** The labelled source with the lowest bound, ties to the earlier. */
  lemma {:induction false} SeedIsBest(sources: Each<Tracker>, n: nat)
    requires n <= COUNT
    ensures var best := SeedOf(sources, n);
      && (best == NONE || Seeds(sources.At(best)))
      && forall i :: 0 <= i < n && Seeds(sources.At(i)) ==>
           && best != NONE
           && (sources.At(best).boundNs < sources.At(i).boundNs
               || (sources.At(best).boundNs == sources.At(i).boundNs && best <= i))
  {
    if n > 0 {
      SeedIsBest(sources, n - 1);
    }
  }

  function Given(time: TimeOfDay, s: Snapshot, sources: Each<Tracker>, linkLeap: UtcLeap, source: nat): TimeOfDay {
    var r := sources.At(source).report;
    var leap := LeapWith(r, linkLeap);
    time.(known := true, second := LabelEpoch(s, r, leap), leap := leap, source := source)
  }

  function CountedOn(time: TimeOfDay): Label {
    Advance(time.second, 1, InUse(time.leap))
  }

  function Corrected(time: TimeOfDay): TimeOfDay {
    time.(corrections := Wrap32(time.corrections + 1))
  }

  /** keep_time(): the label of the source in use, else the count, else a first
      label (seed_time()). A label other than the count, once locked, is a correction. */
  function Kept(v: View, s: Snapshot, usable: bool, wasLocked: bool): TimeOfDay {
    var seed := SeedOf(v.sources, COUNT);
    if usable then
      var given := Given(v.time, s, v.sources, v.linkLeap, v.machine.source);
      if wasLocked && v.time.known && given.second != CountedOn(v.time) then Corrected(given) else given
    else if v.time.known then
      v.time.(second := CountedOn(v.time), leap := if v.linkLeap.change != 0 then v.linkLeap else v.time.leap)
    else if seed == NONE then v.time
    else Given(v.time, s, v.sources, v.linkLeap, seed)
  }

  /** The step, in ticks, that a time set by hand asks for. */
  function ManualStep(slotMs: nat): int {
    if slotMs > 500 then -((1000 - slotMs) * TICKS_PER_MS) else slotMs * TICKS_PER_MS
  }

  /** The whole seconds counted from the moment set to the n-th epoch after the call. */
  function ManualSeconds(n: int, slotMs: nat): int {
    if slotMs > 500 then n - 1 else n
  }

  /** From the moment set to the n-th epoch after the call is 1000 n ms less the
      slot. Its label is the nearest second, and the step, of half a second at
      most, makes up exactly the difference. */
  lemma ManualTimeExact(n: int, slotMs: nat)
    requires slotMs < 1000
    ensures var moment := 1000 * n - slotMs;
      && -500 <= moment - 1000 * ManualSeconds(n, slotMs) <= 500
      && moment * TICKS_PER_MS + ManualStep(slotMs) == 1000 * ManualSeconds(n, slotMs) * TICKS_PER_MS
      && -NOMINAL_TICKS / 2 <= ManualStep(slotMs) <= NOMINAL_TICKS / 2
  {
  }

  /** A time set by hand is waiting, and nothing has steered. */
  predicate ByHand(v: View) {
    v.manual.pending && v.machine.state == FreeRun && !v.machine.steered
  }

  /** apply_manual_time(): this epoch is n s less the slot after the moment set.
      It is labelled the nearest second, less the one keep_time() counts on, and
      stepped so that the epochs come to fall on the seconds from that moment. */
  function SetByHand(v: View, epoch: u32): View {
    var m, elapsed := v.machine, Wrap32(epoch - v.manual.epoch);
    if !ByHand(v) then v.(manual := v.manual.(pending := false))
    else v.(
      manual := v.manual.(pending := false),
      machine := m.(aligned := true, actions := m.actions + [FreeRunStep(false, ManualStep(v.manual.slotMs))]),
      time := (if v.time.known then Corrected(v.time) else v.time).(
        known := true, source := NONE,
        second := Label(Wrap32(v.manual.utc + ManualSeconds(elapsed, v.manual.slotMs) - 1), false)))
  }

  // ---- One epoch --------------------------------------------------------------------------------

  /** apply_resync(): every source judged afresh, holdover dropped, free running. */
  function Resynced(v: View): View {
    if !v.resyncPending then v
    else
      var m := v.machine.(resyncSlew := v.machine.state == Locked || v.machine.state == Holdover);
      v.(resyncPending := false, sources := AFRESH, holdover := v.holdover.(ready := false, boundNs := BOUND_NONE),
         machine := Entered(m, FreeRun, NONE, Resync, |m.contests|))
  }

  function Heeded(v: View, s: Snapshot, reports: Each<Report>): View {
    v.(sources := AllHeard(v.sources, s, reports, v.machine.source))
  }

  /** A fallback that is GOOD stops being one. */
  function Promoted(v: View): View {
    v.(machine := v.machine.(fallback := v.machine.fallback && !SourceGood(v, v.machine.source)))
  }

  /** The sources judged, and what was asked for done. */
  function Assessed(v: View, s: Snapshot, reports: Each<Report>): View {
    var w := Promoted(SetByHand(Heeded(Resynced(v), s, reports), s.sequence));
    w.(holdover := WithBound(w.holdover))
  }

  /** What the choice of a source is made from. */
  function Face(v: View, s: Snapshot, reports: Each<Report>): View {
    Aligned(Assessed(v, s, reports))
  }

  /** The loop may use the source. */
  predicate Usable(v: View) {
    IsTracking(v.machine) && SourceUsable(v, v.machine.source) && v.sources.At(v.machine.source).report.captured
  }

  /** What the loop is told of an epoch. */
  datatype Told = Told(usable: bool, offsetTicks: int, sourceStepped: bool)

  function ToldOf(v: View): Told {
    var index := v.machine.source;
    Told(Usable(v), if Usable(v) then NsToTicks(v.sources.At(index).report.edgeOffsetNs) else 0,
         IsTracking(v.machine) && index < COUNT && v.sources.At(index).report.stepped)
  }

  /** The transitions driven by the loop, and holdover after it. */
  function Settled(v: View, sequence: u32, loop: Loop, epoch: nat): View {
    var w := v.(machine := Looped(v.machine, sequence, loop, epoch));
    w.(holdover := WithBound(Held(w, loop.update)))
  }

  function Chosen(v: View, s: Snapshot, reports: Each<Report>, loop: Loop): View {
    Followed(Face(v, s, reports), loop.tracksBefore)
  }

  /** sync_update() */
  function Next(v: View, s: Snapshot, reports: Each<Report>, loop: Loop): View {
    var chosen := Chosen(v, s, reports, loop);
    var settled := Settled(chosen, s.sequence, loop, |v.machine.contests|);
    settled.(time := Kept(settled, s, Usable(chosen), v.machine.state == Locked || v.machine.state == Holdover),
             epochs := Wrap32(v.epochs + 1))
  }

  // ---- What is asked for between epochs ------------------------------------------------------------

  datatype Command =
    | Epoch(s: Snapshot, reports: Each<Report>, loop: Loop)
    | TimeByHand(utc: u32, epoch: u32, slotMs: nat)
    | ResyncAsked
    | LeapAnnounced(leap: UtcLeap)

  /** sync_set_time() takes it only before anything has steered. */
  predicate TakesTime(v: View, slotMs: nat) {
    v.machine.state == FreeRun && !v.machine.steered && slotMs < 1000
  }

  function Step(v: View, c: Command): View {
    match c
    case Epoch(s, reports, loop) => Next(v, s, reports, loop)
    case TimeByHand(utc, epoch, slotMs) =>
      if TakesTime(v, slotMs) then v.(manual := ManualTime(true, utc, epoch, slotMs)) else v
    case ResyncAsked => v.(resyncPending := true)
    case LeapAnnounced(leap) => v.(linkLeap := if leap.change == 0 then NO_LEAP else leap)
  }

  /** A run of the synchroniser. */
  function After(v: View, commands: seq<Command>): View {
    if commands == [] then v else Step(After(v, commands[..|commands| - 1]), commands[|commands| - 1])
  }
}
