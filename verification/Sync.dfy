/** The synchroniser (sync/sync.c): the source followed and the time of day, kept in place. Each method does what SyncModel says of it;
    SyncRuns says what that promises. */
module Synchroniser {
  import opened MachineWords
  import opened Utc
  import opened SyncSource
  import opened SyncLog
  import opened SyncModel
  import opened SyncRuns

  class Synchroniser {
    var state: State
    var source: nat
    var fallback: bool
    const gnss: SourceTracker
    const ntp: SourceTracker
    const rtc: SourceTracker
    var challenger: nat
    var challengeRun: u16
    var holdover: Holding
    var time: TimeOfDay
    var linkLeap: UtcLeap
    // Start-up, and what has been asked for.
    var epochs: u32
    var steered: bool
    var aligned: bool
    var resyncSlew: bool
    var resyncPending: bool
    var manual: ManualTime

    // The run so far.
    ghost var transitions: seq<Transition>
    ghost var contests: seq<Contest>
    ghost var actions: seq<Action>

    function SourceAt(index: nat): (t: SourceTracker) {
      if index == GNSS then gnss else if index == NTP then ntp else rtc
    }

    predicate Apart() {
      gnss != ntp && ntp != rtc && gnss != rtc
    }

    ghost function Chart(): Machine
      reads this`state, this`source, this`fallback, this`challenger, this`challengeRun, this`steered, this`aligned,
        this`resyncSlew, this`transitions, this`contests, this`actions
    {
      Machine(state, source, fallback, challenger, challengeRun, steered, aligned, resyncSlew,
              transitions, contests, actions)
    }

    ghost function Sources(): Each<Tracker>
      reads gnss, ntp, rtc
    {
      Each(gnss.Record(), ntp.Record(), rtc.Record())
    }

    /** Where it stands. */
    ghost function Now(): View
      reads this, gnss, ntp, rtc
    {
      View(Chart(), Sources(), holdover, time, linkLeap, epochs, resyncPending, manual)
    }

    /** sync_init() */
    constructor ()
      ensures Now() == INIT && Apart() && fresh(gnss) && fresh(ntp) && fresh(rtc)
    {
      gnss := new SourceTracker();
      ntp := new SourceTracker();
      rtc := new SourceTracker();
      state, source, fallback, challenger, challengeRun := FreeRun, NONE, false, NONE, 0;
      holdover := NOT_HOLDING;
      time, linkLeap := TimeOfDay(false, Label(0, false), NO_LEAP, 0, NONE), NO_LEAP;
      epochs, steered, aligned, resyncSlew, resyncPending := 0, false, false, false, false;
      manual := ManualTime(false, 0, 0, 0);
      transitions, contests, actions := [], [], [];
    }

    // ---- Candidates -----------------------------------------------------------

    predicate InTracking(): (r: bool)
      reads this`state
    {
      state == Acquire || state == Locked
    }

    predicate GoodNow(index: nat): (r: bool)
      reads this, gnss, ntp, rtc
      ensures r == SourceGood(Now(), index)
    {
      index < COUNT && SourceAt(index).check == Good
    }

    /** source_usable() */
    predicate UsableNow(index: nat): (r: bool)
      reads this, gnss, ntp, rtc
      ensures r == SourceUsable(Now(), index)
    {
      GoodNow(index) || (index < COUNT && index == source && fallback && SourceAt(index).check == Inaccurate)
    }

    /** sync_candidate_bound() */
    method BoundNow(candidate: nat) returns (bound: u32)
      ensures bound == CandidateBound(Now(), candidate)
    {
      if candidate == HOLDOVER_CANDIDATE {
        return if holdover.ready && holdover.boundNs <= SYNCHRONISED_LIMIT_NS then holdover.boundNs else BOUND_NONE;
      }
      if candidate >= COUNT || !Source(candidate).steers {
        return BOUND_NONE;
      }
      if candidate == source && InTracking() {
        return if UsableNow(candidate) then SourceAt(candidate).boundNs else BOUND_NONE;
      }
      if !GoodNow(candidate) || SourceAt(candidate).goodRun < QUALIFY_EPOCHS {
        return BOUND_NONE;
      }
      return SourceAt(candidate).boundNs;
    }

    /** current_bound() */
    method BoundInUse() returns (bound: u32)
      ensures bound == CurrentBound(Now())
    {
      hide CandidateBound;
      if InTracking() {
        bound := BoundNow(source);
      } else {
        bound := if state == Holdover then holdover.boundNs else BOUND_NONE;
      }
    }

    /** best_source() */
    method BestSource(except: nat) returns (best: nat)
      ensures best == Best(Now(), except) && IsBest(Now(), best, except, COUNT)
    {
      hide CandidateBound;
      best := NONE;
      var bestBound: u32 := BOUND_NONE;
      var index := 0;
      while index < COUNT
        invariant index <= COUNT && best == BestOf(Now(), except, index)
        invariant bestBound == if best == NONE then BOUND_NONE else CandidateBound(Now(), best)
      {
        var bound := BoundNow(index);
        if index != except && bound < bestBound {
          best := index;
          bestBound := bound;
        }
        index := index + 1;
      }
      BestIsBest(Now(), except, COUNT);
    }

    /** best_fallback() */
    method FallbackSource() returns (best: nat)
      ensures best == BestFallback(Now()) && IsBestFallback(Now(), best, COUNT)
    {
      best := NONE;
      var bestBound: u32 := BOUND_NONE;
      var index := 0;
      while index < COUNT
        invariant index <= COUNT && best == FallbackOf(Now(), index)
        invariant bestBound == if best == NONE then BOUND_NONE else Now().sources.At(best).boundNs
      {
        var tracker := SourceAt(index);
        if Source(index).steers && tracker.usableRun >= QUALIFY_EPOCHS && tracker.boundNs < bestBound {
          best := index;
          bestBound := tracker.boundNs;
        }
        index := index + 1;
      }
      FallbackIsBest(Now(), COUNT);
    }

    /** challenge(): won once the challenger has beaten the incumbent for
        SWITCH_EPOCHS in a row. The contest is logged. */
    method Challenge(rival: nat, incumbent: u32) returns (won: bool)
      requires incumbent == CurrentBound(Now())
      modifies this`challenger, this`challengeRun, this`contests
      ensures won == Fight(old(Now()), rival).won
      ensures Chart() == Fought(old(Chart()), Fight(old(Now()), rival))
    {
      BoundOfNone(Now());
      hide CandidateBound, CurrentBound;
      var bound := BoundNow(rival);
      contests := contests + [Fight(Now(), rival)];
      if rival == NONE || bound == BOUND_NONE || bound * SWITCH_RATIO >= incumbent {
        challenger, challengeRun := NONE, 0;
        return false;
      }
      if rival != challenger {
        challenger, challengeRun := rival, 0;
      }
      if challengeRun < U16 - 1 {
        challengeRun := challengeRun + 1;
      }
      return challengeRun >= SWITCH_EPOCHS;
    }

    // ---- The state machine ------------------------------------------------------

    /** enter(). epoch: how many have been completed before this one. */
    method Enter(to: State, next: nat, reason: Reason, ghost epoch: nat)
      modifies this`state, this`source, this`fallback, this`challenger, this`challengeRun, this`transitions
      ensures Chart() == Entered(old(Chart()), to, next, reason, epoch)
    {
      transitions := transitions + [Transition(epoch, state, to, next, reason)];
      state, source, fallback, challenger, challengeRun := to, next, fallback && next == source, NONE, 0;
    }

    method WouldSlew(next: nat, loopTracks: bool) returns (slew: bool)
      ensures slew == Slews(Now(), next, loopTracks)
    {
      slew := false;
      if (state == Locked || state == Holdover || resyncSlew) && SourceAt(next).phaseValid && loopTracks {
        var limit := Source(next).gateTicks / 2;
        slew := SourceAt(next).phaseTicks <= limit && SourceAt(next).phaseTicks >= -limit;
      }
    }

    /** acquire(): the loop is restarted on the source, slewing if our epoch is
        within half its gate already. */
    method AcquireSource(next: nat, reason: Reason, asFallback: bool, loopTracks: bool, ghost epoch: nat)
      modifies this`state, this`source, this`fallback, this`challenger, this`challengeRun, this`transitions,
        this`actions, this`steered, this`resyncSlew
      ensures Chart() == Acquired(old(Chart()), next, reason, asFallback, Slews(old(Now()), next, loopTracks), epoch)
    {
      hide Slews;
      var slew := WouldSlew(next, loopTracks);
      actions := actions + [Restart(next, slew)];
      Enter(Acquire, next, reason, epoch);
      fallback, steered, resyncSlew := asFallback, true, false;
    }

    /** align_to_time_of_day() */
    method AlignToTimeOfDay()
      modifies this`aligned, this`actions
      ensures Now() == Aligned(old(Now()))
    {
      if state != FreeRun || aligned || steered {
        return;
      }
      var index := 0;
      while index < COUNT
        invariant index <= COUNT && (index > RTC ==> !Aligns(rtc.Record()))
        invariant Now() == old(Now())
      {
        var tracker := SourceAt(index);
        if !Source(index).steers && (tracker.check == Good || tracker.check == Inaccurate) && tracker.phaseValid {
          aligned := true;
          actions := actions + [FreeRunStep(true, -tracker.phaseTicks)];
          return;
        }
        index := index + 1;
      }
    }

    /** time_of_day_pending() */
    method WaitsForRtc() returns (pending: bool)
      ensures pending == TimeOfDayPending(Now())
    {
      if aligned || steered || epochs >= ALIGN_WAIT_EPOCHS {
        return false;
      }
      var index := 0;
      while index < COUNT
        invariant index <= COUNT && (index > RTC ==> !Searching(rtc.Record()))
      {
        var report := SourceAt(index).report;
        if !Source(index).steers && report.present && report.timeValid && !report.edge {
          return true;
        }
        index := index + 1;
      }
      return false;
    }

    // An epoch whose sources make no challenge.
    ghost method Pass()
      modifies this`contests
      ensures Chart() == Passed(old(Chart()))
    {
      contests := contests + [Contest(|transitions|, NONE, 0, 0, false)];
    }

    /** Without a source. */
    method FollowFreeRun(loopTracks: bool)
      modifies this`state, this`source, this`fallback, this`challenger, this`challengeRun, this`transitions,
        this`actions, this`steered, this`resyncSlew, this`contests
      ensures Chart() == FollowedFree(old(Now()), loopTracks)
    {
      ghost var v := Now();
      var pending := WaitsForRtc();
      var best := BestSource(NONE);
      var coarse := FallbackSource();
      hide IsBest, IsBestFallback, Slews, Best, BestFallback, TimeOfDayPending, Acquired;
      ghost var epoch := |contests|;
      if pending {
        Pass();
      } else if best != NONE {
        AcquireOn(best, Qualified, false, loopTracks);
      } else if coarse != NONE {
        AcquireOn(coarse, Qualified, !GoodNow(coarse), loopTracks);
      } else {
        Pass();
      }
    }

    // A source acquired in an epoch without a contest.
    method AcquireOn(next: nat, reason: Reason, asFallback: bool, loopTracks: bool)
      modifies this`state, this`source, this`fallback, this`challenger, this`challengeRun, this`transitions,
        this`actions, this`steered, this`resyncSlew, this`contests
      ensures Chart() == Acquired(Passed(old(Chart())), next, reason, asFallback, Slews(old(Now()), next, loopTracks),
                                  |old(contests)|)
    {
      hide Acquired;
      ghost var epoch := |contests|;
      Pass();
      AcquireSource(next, reason, asFallback, loopTracks, epoch);
    }

    /** Following a source. */
    method FollowTracking(loopTracks: bool)
      requires InTracking()
      modifies this`state, this`source, this`fallback, this`challenger, this`challengeRun, this`transitions,
        this`actions, this`steered, this`resyncSlew, this`contests
      ensures Chart() == FollowedTracking(old(Now()), loopTracks)
    {
      hide IsBest, Best, Acquired, Entered, Fought, Fight, CandidateBound, CurrentBound, Slews, SourceUsable;
      var selected := source;
      var best := BestSource(selected);
      ghost var epoch := |contests|;
      if UsableNow(selected) {
        var incumbent := BoundInUse();
        var _ := ChallengeFor(best, incumbent, BetterSource, loopTracks);
        return;
      }
      var held := BoundNow(HOLDOVER_CANDIDATE);
      if held != BOUND_NONE {
        Pass();
        Enter(Holdover, holdover.source, SourceLost, epoch);
      } else if best != NONE {
        AcquireOn(best, Alternative, false, loopTracks);
      } else {
        Pass();
        Enter(FreeRun, NONE, SourceLost, epoch);
      }
    }

    // Challenging for the place of what is in use.
    method ChallengeFor(best: nat, incumbent: u32, reason: Reason, loopTracks: bool) returns (won: bool)
      requires incumbent == CurrentBound(Now())
      modifies this`state, this`source, this`fallback, this`challenger, this`challengeRun, this`transitions,
        this`actions, this`steered, this`resyncSlew, this`contests
      ensures var v := old(Now());
        && won == Fight(v, best).won
        && Chart() == if won then Acquired(Fought(v.machine, Fight(v, best)), best, reason, false, Slews(v, best, loopTracks),
                                           |v.machine.contests|)
                      else Fought(v.machine, Fight(v, best))
    {
      hide Acquired, CandidateBound, CurrentBound, Fight;
      ghost var epoch := |contests|;
      won := Challenge(best, incumbent);
      if won {
        AcquireSource(best, reason, false, loopTracks, epoch);
      }
    }

    /** Holding over. */
    method FollowHeld(loopTracks: bool)
      requires state == Holdover
      modifies this`state, this`source, this`fallback, this`challenger, this`challengeRun, this`transitions,
        this`actions, this`steered, this`resyncSlew, this`contests
      ensures Chart() == FollowedHeld(old(Now()), loopTracks)
    {
      hide IsBest, Best, Acquired, Entered, Fought, Fight, CandidateBound, Slews, SourceUsable;
      var selected := source;
      var best := BestSource(NONE);
      ghost var epoch := |contests|;
      if UsableNow(selected) && SourceAt(selected).report.captured && SourceAt(selected).boundNs <= holdover.boundNs {
        Pass();
        Enter(Locked, selected, SourceBack, epoch);
      } else if best == selected && !SourceAt(selected).report.captured {
        AcquireOn(selected, SourceBack, false, loopTracks);
      } else {
        var won := ChallengeFor(best, holdover.boundNs, Alternative, loopTracks);
        if !won && holdover.boundNs > SYNCHRONISED_LIMIT_NS {
          Enter(FreeRun, NONE, Expired, epoch);
        }
      }
    }

    /** follow_sources() */
    method FollowSources(loopTracks: bool)
      modifies this`state, this`source, this`fallback, this`challenger, this`challengeRun, this`transitions,
        this`actions, this`steered, this`resyncSlew, this`contests
      ensures Now() == Followed(old(Now()), loopTracks)
    {
      hide FollowedFree, FollowedTracking, FollowedHeld;
      match state {
        case FreeRun => FollowFreeRun(loopTracks);
        case Acquire => FollowTracking(loopTracks);
        case Locked => FollowTracking(loopTracks);
        case Holdover => FollowHeld(loopTracks);
      }
    }

    /** follow_loop() */
    method FollowLoop(sequence: u32, loop: Loop, ghost epoch: nat)
      modifies this`state, this`source, this`fallback, this`challenger, this`challengeRun, this`transitions
      ensures Chart() == Looped(old(Chart()), sequence, loop, epoch)
    {
      hide Entered;
      if state == Acquire && loop.tracks && loop.lastResync != sequence && loop.update.measured {
        Enter(Locked, source, Tracking, epoch);
      } else if state == Locked && !loop.tracks {
        Enter(Acquire, source, PhaseLost, epoch);
      }
    }

    // ---- Holdover -----------------------------------------------------------------

    /** update_holdover_bound() */
    method UpdateHeldBound()
      modifies this`holdover
      ensures holdover == WithBound(old(holdover))
    {
      if !holdover.ready {
        holdover := holdover.(boundNs := BOUND_NONE);
        return;
      }
      var age := holdover.age;
      holdover := holdover.(boundNs :=
        Saturate((holdover.baseNs + holdover.frequencyNs * age + (5 * age * age) % U64 / 2000) % U64));
    }

    /** follow_holdover() */
    method FollowHoldover(update: LoopUpdate)
      modifies this`holdover
      ensures holdover == Held(old(Now()), update)
    {
      if state == Locked && update.measured {
        holdover := holdover.(
          ready := true, source := source, age := 0,
          baseNs := Saturate(SourceAt(source).boundNs + TicksToNs(update.offsetTicks)),
          frequencyNs := Source(source).holdoverFrequencyNs);
      } else if holdover.ready && holdover.age < U32 - 1 {
        holdover := holdover.(age := holdover.age + 1);
      }
    }

    // ---- The time of day --------------------------------------------------------------

    /** seed_time(): the label of the best source there is, whether or not it may steer. */
    method SeedTime(s: Snapshot)
      modifies this`time
      ensures var seed := SeedOf(Sources(), COUNT);
        time == if seed == NONE then old(time) else Given(old(time), s, Sources(), linkLeap, seed)
    {
      hide LabelEpoch;
      var best: nat, bestBound: u32 := NONE, BOUND_NONE;
      var index := 0;
      while index < COUNT
        invariant index <= COUNT && best == SeedOf(Sources(), index)
        invariant bestBound == if best == NONE then BOUND_NONE else Sources().At(best).boundNs
      {
        var tracker := SourceAt(index);
        if (tracker.check == Good || tracker.check == Inaccurate) && tracker.report.labelled && tracker.boundNs < bestBound {
          best := index;
          bestBound := tracker.boundNs;
        }
        index := index + 1;
      }
      if best == NONE {
        return;
      }
      var report := SourceAt(best).report;
      time := time.(leap := if report.leap.change != 0 then report.leap else linkLeap);
      time := time.(second := LabelEpoch(s, report, time.leap), known := true, source := best);
    }

    /** keep_time() */
    method KeepTime(s: Snapshot, usable: bool, wasLocked: bool)
      modifies this`time
      ensures time == Kept(old(Now()), s, usable, wasLocked)
    {
      hide LabelEpoch, Advance, SeedOf;
      var counted := Advance(time.second, 1, if time.leap.change != 0 then time.leap else NO_LEAP);
      if usable {
        var report := SourceAt(source).report;
        time := time.(leap := if report.leap.change != 0 then report.leap else linkLeap);
        var given := LabelEpoch(s, report, time.leap);
        if wasLocked && time.known && (given.utc != counted.utc || given.leap != counted.leap) {
          time := time.(corrections := Wrap32(time.corrections + 1));
        }
        time := time.(second := given, known := true, source := source);
      } else if time.known {
        time := time.(second := counted);
        if linkLeap.change != 0 {
          time := time.(leap := linkLeap);
        }
      } else {
        SeedTime(s);
      }
    }

    /** apply_manual_time() */
    method ApplyManualTime(epoch: u32)
      modifies this`manual, this`time, this`aligned, this`actions
      ensures Now() == SetByHand(old(Now()), epoch)
    {
      hide Wrap32;
      var elapsed: int := Wrap32(epoch - manual.epoch);
      var laterHalf := manual.slotMs > 500;
      if !manual.pending {
        return;
      }
      manual := manual.(pending := false);
      if state != FreeRun || steered {
        return;
      }
      AskStep(if laterHalf then -((1000 - manual.slotMs) * TICKS_PER_MS) else manual.slotMs * TICKS_PER_MS);
      var corrections := if time.known then Wrap32(time.corrections + 1) else time.corrections;
      var second: int := elapsed - (if laterHalf then 1 else 0);
      time := time.(known := true, source := NONE, corrections := corrections,
                    second := Label(Wrap32(manual.utc + second - 1), false));
    }

    // epoch_control_free_run_step(), which counts as the one alignment.
    method AskStep(ticks: int)
      modifies this`actions, this`aligned
      ensures Chart() == old(Chart()).(aligned := true, actions := old(actions) + [FreeRunStep(false, ticks)])
    {
      actions := actions + [FreeRunStep(false, ticks)];
      aligned := true;
    }

    // ---- One epoch ----------------------------------------------------------------------

    /** apply_resync() */
    method ApplyResync()
      requires Apart()
      modifies this`resyncPending, this`resyncSlew, this`holdover, this`state, this`source, this`fallback,
        this`challenger, this`challengeRun, this`transitions, gnss, ntp, rtc
      ensures Now() == Resynced(old(Now()))
    {
      hide Entered, SourceTracker.Record;
      if !resyncPending {
        return;
      }
      ResetSources();
      StartAfresh();
      resyncPending := false;
      holdover := holdover.(ready := false, boundNs := BOUND_NONE);
    }

    method StartAfresh()
      modifies this`resyncSlew, this`state, this`source, this`fallback, this`challenger, this`challengeRun,
        this`transitions
      ensures var m := old(Chart());
        Chart() == Entered(m.(resyncSlew := m.state == Locked || m.state == Holdover), FreeRun, NONE, Resync, |m.contests|)
    {
      hide Entered;
      resyncSlew := state == Locked || state == Holdover;
      Enter(FreeRun, NONE, Resync, |contests|);
    }

    method ResetSources()
      requires Apart()
      modifies gnss, ntp, rtc
      ensures Sources() == AFRESH
    {
      gnss.Reset();
      ntp.Reset();
      rtc.Reset();
    }

    /** judge_sources() */
    method JudgeSources(s: Snapshot, reports: Each<Report>)
      requires Apart()
      modifies gnss, ntp, rtc
      ensures Sources() == AllHeard(old(Sources()), s, reports, source)
    {
      hide Heard;
      JudgeSource(gnss, GNSS, s, reports.gnss);
      JudgeSource(ntp, NTP, s, reports.ntp);
      JudgeSource(rtc, RTC, s, reports.rtc);
    }

    method JudgeSource(tracker: SourceTracker, index: nat, s: Snapshot, r: Report)
      requires index < COUNT
      modifies tracker
      ensures tracker.Record() == Heard(old(tracker.Record()), index, s, r, index == source)
    {
      hide Judged;
      var limit := if index == source then Source(index).holdNs else Source(index).qualifyNs;
      tracker.Judge(r, limit);
      tracker.boundNs := if tracker.check == Good || tracker.check == Inaccurate
        then Saturate(r.uncertaintyNs * Source(index).boundScale + Source(index).boundFloorNs) else 0;
      tracker.phaseValid := r.edge && s.captureValid;
      tracker.phaseTicks := if tracker.phaseValid then WrapPhase(RawPhase(s, r)) else 0;
    }

    // What the choice is made from.
    method Assess(s: Snapshot, reports: Each<Report>)
      requires Apart()
      modifies this, gnss, ntp, rtc
      ensures Now() == Assessed(old(Now()), s, reports)
    {
      hide Resynced, AllHeard, SetByHand, Promoted, WithBound;
      ApplyResync();
      JudgeSources(s, reports);
      ApplyManualTime(s.sequence);
      ClearFallback();
      UpdateHeldBound();
    }

    method ClearFallback()
      modifies this`fallback
      ensures Now() == Promoted(old(Now()))
    {
      if fallback && GoodNow(source) {
        fallback := false;
      }
    }

    // The transitions driven by the loop, and holdover after it.
    method Settle(sequence: u32, loop: Loop, ghost epoch: nat)
      modifies this`state, this`source, this`fallback, this`challenger, this`challengeRun, this`transitions,
        this`holdover
      ensures Now() == Settled(old(Now()), sequence, loop, epoch)
    {
      hide Looped, Held, WithBound;
      FollowLoop(sequence, loop, epoch);
      FollowHoldover(loop.update);
      UpdateHeldBound();
    }

    // The choice, and what the loop is told of it.
    method Choose(s: Snapshot, reports: Each<Report>, loop: Loop) returns (told: Told)
      requires Apart()
      modifies this, gnss, ntp, rtc
      ensures Now() == Chosen(old(Now()), s, reports, loop) && told == ToldOf(Now())
      ensures epochs == old(epochs)
    {
      hide Assessed, Aligned, Followed, SourceUsable, NsToTicks;
      Assess(s, reports);
      AlignToTimeOfDay();
      FollowSources(loop.tracksBefore);
      told := Told(InTracking() && UsableNow(source) && SourceAt(source).report.captured, 0, false);
      if told.usable {
        told := told.(offsetTicks := NsToTicks(SourceAt(source).report.edgeOffsetNs));
      }
      if InTracking() && source < COUNT && SourceAt(source).report.stepped {
        told := told.(sourceStepped := true);
      }
      EpochsKept(old(Now()), s, reports, loop);
    }

    lemma EpochsKept(v: View, s: Snapshot, reports: Each<Report>, loop: Loop)
      ensures Chosen(v, s, reports, loop).epochs == v.epochs
    {
      hide AllHeard, WithBound, SourceGood, FollowedFree, FollowedTracking, FollowedHeld, Aligns;
    }

    /** sync_update() */
    method Update(s: Snapshot, reports: Each<Report>, loop: Loop) returns (told: Told)
      requires Apart()
      modifies this, gnss, ntp, rtc
      ensures Now() == Next(old(Now()), s, reports, loop)
      ensures told == ToldOf(Chosen(old(Now()), s, reports, loop))
    {
      hide Chosen, Usable, Settled, Kept, NsToTicks;
      var wasLocked := state == Locked || state == Holdover;
      ghost var epoch := |contests|;
      told := Choose(s, reports, loop);
      Settle(s.sequence, loop, epoch);
      KeepTime(s, told.usable, wasLocked);
      epochs := Wrap32(epochs + 1);
    }

    // ---- What is asked for between epochs ------------------------------------------------

    /** sync_set_time() */
    method SetTime(utc: u32, epoch: u32, slotMs: nat) returns (taken: bool)
      modifies this`manual
      ensures taken <==> old(state) == FreeRun && !old(steered) && slotMs < 1000
      ensures Now() == Step(old(Now()), TimeByHand(utc, epoch, slotMs))
    {
      hide Next;
      if state != FreeRun || steered || slotMs >= 1000 {
        return false;
      }
      manual := ManualTime(true, utc, epoch, slotMs);
      return true;
    }

    /** sync_resync() */
    method RequestResync()
      modifies this`resyncPending
      ensures Now() == Step(old(Now()), ResyncAsked)
    {
      hide Next;
      resyncPending := true;
    }

    /** sync_set_leap() */
    method SetLeap(announced: UtcLeap)
      modifies this`linkLeap
      ensures Now() == Step(old(Now()), LeapAnnounced(announced))
      ensures linkLeap.change == announced.change && (announced.change != 0 ==> linkLeap == announced)
    {
      hide Next;
      linkLeap := announced;
      if announced.change == 0 {
        linkLeap := linkLeap.(event := 0);
      }
    }
  }

  // ---- Whole runs -----------------------------------------------------------------------

  method Carry(y: Synchroniser, c: Command)
    requires y.Apart()
    modifies y, y.gnss, y.ntp, y.rtc
    ensures y.Now() == Step(old(y.Now()), c)
  {
    hide Next, Synchroniser.Now;
    match c {
      case Epoch(s, reports, loop) => var _ := y.Update(s, reports, loop);
      case TimeByHand(utc, epoch, slotMs) => var _ := y.SetTime(utc, epoch, slotMs);
      case ResyncAsked => y.RequestResync();
      case LeapAnnounced(leap) => y.SetLeap(leap);
    }
  }

  /** Any run from start-up is the one the model gives, so all that SyncRuns says of
      those is true of it. */
  method Run(commands: seq<Command>) returns (y: Synchroniser)
    ensures fresh(y) && y.Now() == After(INIT, commands)
  {
    hide Step, Synchroniser.Now;
    y := new Synchroniser();
    var done := 0;
    while done < |commands|
      invariant fresh(y) && fresh(y.gnss) && fresh(y.ntp) && fresh(y.rtc) && y.Apart() && done <= |commands|
      invariant y.Now() == After(INIT, commands[..done])
    {
      Carry(y, commands[done]);
      assert commands[..done + 1][..done] == commands[..done];
      done := done + 1;
    }
    assert commands[..done] == commands;
  }
}
