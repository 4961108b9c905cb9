/** What every run of the synchroniser keeps, and what it promises. */
module SyncRuns {
  import opened MachineWords
  import opened Utc
  import opened SyncSource
  import opened SyncLog
  import opened SyncModel

  // ---- What holds between epochs --------------------------------------------------

  ghost predicate LogsOk(m: Machine) {
    && LogOk(m.contests, |m.transitions|)
    && RunOk(m.contests, |m.transitions|, m.challenger, m.challengeRun) && m.challengeRun < SWITCH_EPOCHS
    && TransitionsOk(m.transitions, m.contests, m.state)
    && ActionsOk(m.actions, m.steered, m.aligned)
  }

  /** Only a source that steers is followed, and only what is held over in holdover. */
  ghost predicate Placed(m: Machine, h: Holding) {
    && (m.state == FreeRun ==> m.source == NONE && !m.fallback && m.challengeRun == 0)
    && (m.state != FreeRun ==> Steers(m.source) && m.steered)
    && (m.state == Holdover ==> h.ready && m.source == h.source)
  }

  ghost predicate SourcesOk(sources: Each<Tracker>) {
    TrackerOk(sources.gnss) && TrackerOk(sources.ntp) && TrackerOk(sources.rtc)
  }

  ghost predicate HoldingOk(h: Holding) {
    Sound(h) && h == WithBound(h)
  }

  /** What holds between epochs, in every run. */
  ghost predicate Valid(v: View) {
    && LogsOk(v.machine) && Placed(v.machine, v.holdover) && SourcesOk(v.sources) && HoldingOk(v.holdover)
    && (v.machine.state == Locked ==> v.holdover.ready)
    && (v.machine.state == Holdover ==> v.holdover.age <= 200_000)
    && v.manual.slotMs < 1000
  }

  lemma InitValid()
    ensures Valid(INIT)
  {
  }

  // ---- State changes ------------------------------------------------------------------

  // A transition of the design keeps the logs; a challenge must have been won.
  lemma EnteredOk(m: Machine, to: State, next: nat, reason: Reason, epoch: nat)
    requires LogOk(m.contests, |m.transitions| + 1) && TransitionsOk(m.transitions, m.contests, m.state)
    requires ActionsOk(m.actions, m.steered, m.aligned)
    requires Allowed(Transition(epoch, m.state, to, next, reason))
    requires Challenged(Transition(epoch, m.state, to, next, reason)) ==>
               && epoch < |m.contests| && m.contests[epoch].won && m.contests[epoch].stay == |m.transitions|
               && m.contests[epoch].challenger == next
    ensures LogsOk(Entered(m, to, next, reason, epoch))
  {
    TransitionAdded(m.transitions, m.contests, m.state, Transition(epoch, m.state, to, next, reason));
    hide LogOk, TransitionsOk, Allowed, Challenged, ActionsOk;
  }

  lemma AcquiredOk(m: Machine, next: nat, reason: Reason, asFallback: bool, slew: bool, epoch: nat)
    requires LogOk(m.contests, |m.transitions| + 1) && TransitionsOk(m.transitions, m.contests, m.state)
    requires ActionsOk(m.actions, m.steered, m.aligned)
    requires Allowed(Transition(epoch, m.state, Acquire, next, reason))
    requires Challenged(Transition(epoch, m.state, Acquire, next, reason)) ==>
               && epoch < |m.contests| && m.contests[epoch].won && m.contests[epoch].stay == |m.transitions|
               && m.contests[epoch].challenger == next
    ensures LogsOk(Acquired(m, next, reason, asFallback, slew, epoch))
  {
    hide LogOk, RunOk, TransitionsOk, Allowed, Challenged, ActionsOk;
    EnteredOk(m, Acquire, next, reason, epoch);
    RestartAdded(m.actions, m.steered, m.aligned, Restart(next, slew));
  }

  // An epoch without a contest may be followed by a state change.
  lemma PassedOk(m: Machine)
    requires LogsOk(m)
    ensures var p := Passed(m);
      && LogOk(p.contests, |p.transitions|) && LogOk(p.contests, |p.transitions| + 1)
      && TransitionsOk(p.transitions, p.contests, p.state) && ActionsOk(p.actions, p.steered, p.aligned)
      && RunOk(p.contests, |p.transitions|, p.challenger, 0)
  {
    NoContest(m.contests, m.transitions, m.state, Unchallenged(m));
    hide TransitionsOk, ActionsOk, TenInARow;
    assert RunOk(Passed(m).contests, |m.transitions|, m.challenger, 0);
    LogStay(Passed(m).contests, |m.transitions|);
  }

  // One with a contest: won, it must be.
  lemma FoughtOk(v: View, rival: nat)
    requires LogsOk(v.machine) && (rival == NONE || Steers(rival))
    ensures var c := Fight(v, rival);
      var f := Fought(v.machine, c);
      && LogOk(f.contests, if c.won then |f.transitions| + 1 else |f.transitions|)
      && TransitionsOk(f.transitions, f.contests, f.state) && ActionsOk(f.actions, f.steered, f.aligned)
      && (!c.won ==> LogsOk(f))
      && (c.won ==> c.challenger == rival && rival != NONE)
  {
    hide LogOk, RunOk, TransitionsOk, ActionsOk, CandidateBound, CurrentBound;
    var c, m := Fight(v, rival), v.machine;
    BoundOfNone(v);
    if c.challenger == NONE {
      NoContest(m.contests, m.transitions, m.state, c);
    } else {
      ContestFought(m.contests, m.transitions, m.state, m.challenger, m.challengeRun, c);
    }
  }

  lemma BoundOfNone(v: View)
    ensures CandidateBound(v, NONE) == BOUND_NONE
  {
  }

  // ---- The choice of a source ------------------------------------------------------------

  /** The choice keeps the logs, and its outcome is a state it may be in. */
  ghost predicate ChosenOk(m: Machine, v: View) {
    && LogsOk(m) && Placed(m, v.holdover)
    && (m.state == Holdover ==> v.holdover.boundNs <= SYNCHRONISED_LIMIT_NS)
    && (m.state == Locked ==> v.machine.state == Locked || v.machine.state == Holdover)
    && (m.fallback ==> !SourceGood(v, m.source))
  }

  ghost predicate Choosable(v: View) {
    && LogsOk(v.machine) && Placed(v.machine, v.holdover) && Sound(v.holdover)
    && (v.machine.fallback ==> !SourceGood(v, v.machine.source))
  }

  lemma FreeOk(v: View, loopTracks: bool)
    requires Choosable(v) && v.machine.state == FreeRun
    ensures ChosenOk(FollowedFree(v, loopTracks), v)
  {
    hide LogOk, TransitionsOk, ActionsOk, CandidateBound, IsBestFallback, IsFallback, SourceGood, Slews;
    hide BestOf, FallbackOf, Searching, Sound;
    var m, epoch := Passed(v.machine), |v.machine.contests|;
    var best, fallback := Best(v, NONE), BestFallback(v);
    PassedOk(v.machine);
    BestSteers(v, NONE);
    FallbackSteers(v);
    if !TimeOfDayPending(v) && best != NONE {
      AcquiredOk(m, best, Qualified, false, Slews(v, best, loopTracks), epoch);
    } else if !TimeOfDayPending(v) && fallback != NONE {
      AcquiredOk(m, fallback, Qualified, !SourceGood(v, fallback), Slews(v, fallback, loopTracks), epoch);
    }
    hide RunOk;
  }

  lemma BestSteers(v: View, except: nat)
    ensures Best(v, except) == NONE || Steers(Best(v, except))
  {
    BestIsBest(v, except, COUNT);
  }

  lemma FallbackSteers(v: View)
    ensures BestFallback(v) == NONE || Steers(BestFallback(v))
  {
    FallbackIsBest(v, COUNT);
  }

  // Kept, or beaten.
  lemma KeptOk(v: View, loopTracks: bool)
    requires Choosable(v) && IsTracking(v.machine) && SourceUsable(v, v.machine.source)
    ensures ChosenOk(FollowedTracking(v, loopTracks), v)
  {
    hide LogOk, RunOk, TransitionsOk, ActionsOk, SourceUsable, SourceGood, Slews, BestOf, CurrentBound, CandidateBound;
    hide Sound;
    var best := Best(v, v.machine.source);
    BestSteers(v, v.machine.source);
    FoughtOk(v, best);
    var c := Fight(v, best);
    if c.won {
      AcquiredOk(Fought(v.machine, c), best, BetterSource, false, Slews(v, best, loopTracks), |v.machine.contests|);
    }
    hide LogsOk;
  }

  lemma LostOk(v: View, loopTracks: bool)
    requires Choosable(v) && IsTracking(v.machine) && !SourceUsable(v, v.machine.source)
    ensures ChosenOk(FollowedTracking(v, loopTracks), v)
  {
    hide LogOk, RunOk, TransitionsOk, ActionsOk, SourceUsable, SourceGood, Slews, BestOf;
    var epoch, best := |v.machine.contests|, Best(v, v.machine.source);
    PassedOk(v.machine);
    BestSteers(v, v.machine.source);
    WorthHolding(v);
    hide CandidateBound, Sound;
    if CandidateBound(v, HOLDOVER_CANDIDATE) != BOUND_NONE {
      EnteredOk(Passed(v.machine), Holdover, v.holdover.source, SourceLost, epoch);
    } else if best != NONE {
      AcquiredOk(Passed(v.machine), best, Alternative, false, Slews(v, best, loopTracks), epoch);
    } else {
      EnteredOk(Passed(v.machine), FreeRun, NONE, SourceLost, epoch);
    }
    hide LogsOk;
  }

  lemma WorthHolding(v: View)
    requires Sound(v.holdover)
    ensures CandidateBound(v, HOLDOVER_CANDIDATE) != BOUND_NONE ==>
              v.holdover.ready && Steers(v.holdover.source) && v.holdover.boundNs <= SYNCHRONISED_LIMIT_NS
  {
  }

  // Back, or taken up again.
  lemma BackOk(v: View, loopTracks: bool)
    requires Choosable(v) && v.machine.state == Holdover && (IsBack(v) || IsUnrouted(v))
    ensures ChosenOk(FollowedHeld(v, loopTracks), v)
  {
    hide LogOk, RunOk, TransitionsOk, ActionsOk, SourceUsable, SourceGood, Slews, BestOf, Sound, IsBack, IsUnrouted;
    var epoch, selected := |v.machine.contests|, v.machine.source;
    PassedOk(v.machine);
    if IsBack(v) {
      EnteredOk(Passed(v.machine), Locked, selected, SourceBack, epoch);
    } else {
      AcquiredOk(Passed(v.machine), selected, SourceBack, false, Slews(v, selected, loopTracks), epoch);
    }
    hide LogsOk;
  }

  lemma HeldOnOk(v: View, loopTracks: bool)
    requires Choosable(v) && v.machine.state == Holdover && !IsBack(v) && !IsUnrouted(v)
    ensures ChosenOk(FollowedHeld(v, loopTracks), v)
  {
    hide LogOk, RunOk, TransitionsOk, ActionsOk, SourceGood, Slews, BestOf, CurrentBound, CandidateBound;
    hide IsBack, IsUnrouted, Sound;
    var best := Best(v, NONE);
    BestSteers(v, NONE);
    FoughtOk(v, best);
    var c := Fight(v, best);
    if c.won {
      AcquiredOk(Fought(v.machine, c), best, Alternative, false, Slews(v, best, loopTracks), |v.machine.contests|);
    } else if v.holdover.boundNs > SYNCHRONISED_LIMIT_NS {
      ExpiredOk(v, c);
    }
    hide LogsOk;
  }

  lemma ExpiredOk(v: View, c: Contest)
    requires LogsOk(Fought(v.machine, c)) && v.machine.state == Holdover
    ensures LogsOk(Entered(Fought(v.machine, c), FreeRun, NONE, Expired, |v.machine.contests|))
  {
    hide RunOk, TransitionsOk, ActionsOk, TenInARow;
    var f := Fought(v.machine, c);
    LogStay(f.contests, |f.transitions|);
    EnteredOk(f, FreeRun, NONE, Expired, |v.machine.contests|);
  }

  lemma FollowedOk(v: View, loopTracks: bool)
    requires Choosable(v)
    ensures ChosenOk(Followed(v, loopTracks).machine, v)
  {
    hide Choosable, ChosenOk, FollowedFree, FollowedTracking, FollowedHeld, IsBack, IsUnrouted, SourceUsable;
    if v.machine.state == FreeRun {
      FreeOk(v, loopTracks);
    } else if IsTracking(v.machine) && SourceUsable(v, v.machine.source) {
      KeptOk(v, loopTracks);
    } else if IsTracking(v.machine) {
      LostOk(v, loopTracks);
    } else if IsBack(v) || IsUnrouted(v) {
      BackOk(v, loopTracks);
    } else {
      HeldOnOk(v, loopTracks);
    }
  }

  // ---- One epoch -----------------------------------------------------------------------------

  lemma ResyncedOk(v: View)
    requires Valid(v)
    ensures Valid(Resynced(v))
  {
    hide Entered, LogsOk, SourcesOk, Placed, HeldWord;
    if v.resyncPending {
      var m := v.machine.(resyncSlew := v.machine.state == Locked || v.machine.state == Holdover);
      ResetOk(v.machine, v.holdover, m.resyncSlew, Resynced(v).holdover);
      AfreshOk();
    }
  }

  lemma ResetOk(m: Machine, h: Holding, slew: bool, after: Holding)
    requires LogsOk(m) && Placed(m, h)
    ensures var e := Entered(m.(resyncSlew := slew), FreeRun, NONE, Resync, |m.contests|);
      LogsOk(e) && Placed(e, after) && e.state == FreeRun
  {
    hide LogOk, RunOk, TransitionsOk, ActionsOk;
    LogStay(m.contests, |m.transitions|);
    EnteredOk(m.(resyncSlew := slew), FreeRun, NONE, Resync, |m.contests|);
  }

  lemma AfreshOk()
    ensures SourcesOk(AFRESH)
  {
  }

  lemma HeededOk(v: View, s: Snapshot, reports: Each<Report>)
    requires Valid(v)
    ensures Valid(Heeded(v, s, reports))
  {
    hide LogsOk, Placed, HoldingOk, Judged, PhaseOf, BoundOf, Limit;
    HeardOk(v.sources.gnss, GNSS, s, reports.gnss, GNSS == v.machine.source);
    HeardOk(v.sources.ntp, NTP, s, reports.ntp, NTP == v.machine.source);
    HeardOk(v.sources.rtc, RTC, s, reports.rtc, RTC == v.machine.source);
    hide TrackerOk, Heard;
  }

  lemma HeardOk(t: Tracker, index: nat, s: Snapshot, r: Report, inUse: bool)
    requires TrackerOk(t)
    ensures TrackerOk(Heard(t, index, s, r, inUse))
  {
    hide Judged, Trailing, Labels;
    JudgedOk(t, r, Limit(index, inUse));
  }

  lemma SetByHandOk(v: View, epoch: u32)
    requires Valid(v)
    ensures Valid(SetByHand(v, epoch))
  {
    hide LogOk, RunOk, TransitionsOk, ActionsOk, SourcesOk, HoldingOk, Wrap32;
    if ByHand(v) {
      StepAdded(v.machine.actions, v.machine.aligned, FreeRunStep(false, ManualStep(v.manual.slotMs)));
    }
  }

  lemma AlignedOk(v: View)
    requires Valid(v)
    ensures Valid(Aligned(v))
  {
    hide LogOk, RunOk, TransitionsOk, ActionsOk, SourcesOk, HoldingOk, Aligns;
    if v.machine.state == FreeRun && !v.machine.aligned && !v.machine.steered && Aligns(v.sources.rtc) {
      StepAdded(v.machine.actions, v.machine.aligned, FreeRunStep(true, -v.sources.rtc.phaseTicks));
    }
  }

  lemma PromotedOk(v: View)
    requires Valid(v)
    ensures Valid(Promoted(v)) && (Promoted(v).machine.fallback ==> !SourceGood(v, v.machine.source))
  {
    hide LogOk, RunOk, TransitionsOk, ActionsOk, SourcesOk, HoldingOk;
  }

  lemma AssessedOk(v: View, s: Snapshot, reports: Each<Report>)
    requires Valid(v)
    ensures var w, h := Assessed(v, s, reports), SetByHand(Heeded(Resynced(v), s, reports), s.sequence);
      && Valid(w) && w == Promoted(h) && (w.machine.fallback ==> !SourceGood(w, w.machine.source))
  {
    var h := SetByHand(Heeded(Resynced(v), s, reports), s.sequence);
    ResyncedOk(v);
    HeededOk(Resynced(v), s, reports);
    SetByHandOk(Heeded(Resynced(v), s, reports), s.sequence);
    hide Resynced, Heeded, SetByHand, LogsOk, SourcesOk, HoldingOk, WithBound, Valid;
    PromotedOk(h);
    BoundKept(Promoted(h));
  }

  /** The choice is made from a state like any between epochs. */
  lemma FaceOk(v: View, s: Snapshot, reports: Each<Report>)
    requires Valid(v)
    ensures var f := Face(v, s, reports); Valid(f) && Choosable(f)
  {
    hide Assessed, Aligned, LogsOk, SourcesOk, HeldWord, SourceGood, Placed;
    AssessedOk(v, s, reports);
    AlignedOk(Assessed(v, s, reports));
    AlignedAlike(Assessed(v, s, reports));
  }

  lemma BoundKept(v: View)
    requires Valid(v)
    ensures v.(holdover := WithBound(v.holdover)) == v && Sound(v.holdover)
  {
    hide LogsOk, SourcesOk;
  }

  lemma AlignedAlike(v: View)
    ensures var a := Aligned(v);
      && a.machine.state == v.machine.state && a.machine.source == v.machine.source
      && a.machine.fallback == v.machine.fallback && a.sources == v.sources && a.holdover == v.holdover
    ensures SourceGood(Aligned(v), v.machine.source) == SourceGood(v, v.machine.source)
  {
  }

  lemma LoopedOk(v: View, sequence: u32, loop: Loop, epoch: nat)
    requires LogsOk(v.machine) && Placed(v.machine, v.holdover)
    ensures var m := Looped(v.machine, sequence, loop, epoch);
      && LogsOk(m) && Placed(m, v.holdover)
      && m.source == v.machine.source && m.fallback == v.machine.fallback
      && (m.state == Holdover <==> v.machine.state == Holdover)
      && (m.state == FreeRun <==> v.machine.state == FreeRun)
      && (m.state == Locked ==> loop.tracks && (v.machine.state == Locked || loop.update.measured))
      && (m.state == Acquire ==> !(loop.tracks && loop.lastResync != sequence && loop.update.measured))
  {
    hide LogOk, RunOk, TransitionsOk, ActionsOk;
    var m := v.machine;
    LogStay(m.contests, |m.transitions|);
    if m.state == Acquire && loop.tracks && loop.lastResync != sequence && loop.update.measured {
      EnteredOk(m, Locked, m.source, Tracking, epoch);
    } else if m.state == Locked && !loop.tracks {
      EnteredOk(m, Acquire, m.source, PhaseLost, epoch);
    }
    hide LogsOk;
  }

  lemma HeldSound(v: View, update: LoopUpdate)
    requires HoldingOk(v.holdover) && Placed(v.machine, v.holdover)
    requires v.machine.state == Locked ==> v.holdover.ready || update.measured
    requires v.machine.state == Holdover ==> v.holdover.boundNs <= SYNCHRONISED_LIMIT_NS
    ensures var h := WithBound(Held(v, update));
      && HoldingOk(h) && Placed(v.machine, h)
      && (v.machine.state == Locked ==> h.ready) && (v.machine.state == Holdover ==> h.age <= 200_000)
      && (h.ready && !(v.machine.state == Locked && update.measured) ==>
            && v.holdover.ready && h.boundNs >= v.holdover.boundNs && h == WithBound(Aged(v.holdover)))
  {
    hide HeldWord, Saturate, TicksToNs;
    if v.holdover.ready {
      AgedBound(v.holdover);
    }
  }

  lemma SettledOk(v: View, sequence: u32, loop: Loop, epoch: nat)
    requires Settleable(v)
    ensures Valid(Settled(v, sequence, loop, epoch))
  {
    hide LogsOk, Placed, HoldingOk, SourcesOk, Looped, WithBound, Held;
    LoopedOk(v, sequence, loop, epoch);
    HeldSound(v.(machine := Looped(v.machine, sequence, loop, epoch)), loop.update);
  }

  /** The choice made in an epoch. */
  lemma ChosenValid(v: View, s: Snapshot, reports: Each<Report>, loop: Loop)
    requires Valid(v)
    ensures var f, c := Face(v, s, reports), Chosen(v, s, reports, loop);
      && Valid(f) && ChosenOk(c.machine, f) && c == f.(machine := c.machine)
  {
    hide Face, Valid, ChosenOk, FollowedFree, FollowedTracking, FollowedHeld, Choosable;
    FaceOk(v, s, reports);
    FollowedOk(Face(v, s, reports), loop.tracksBefore);
  }

  // Between the choice and the loop.
  ghost predicate Settleable(v: View) {
    && LogsOk(v.machine) && Placed(v.machine, v.holdover) && HoldingOk(v.holdover) && SourcesOk(v.sources)
    && (v.machine.state == Locked ==> v.holdover.ready)
    && (v.machine.state == Holdover ==> v.holdover.boundNs <= SYNCHRONISED_LIMIT_NS)
    && v.manual.slotMs < 1000
  }

  lemma ChosenSettles(f: View, c: View)
    requires Valid(f) && ChosenOk(c.machine, f) && c == f.(machine := c.machine)
    ensures Settleable(c)
  {
    hide LogsOk, HoldingOk, SourcesOk, SourceGood;
  }

  lemma TimeApart(v: View, time: TimeOfDay, epochs: u32)
    requires Valid(v)
    ensures Valid(v.(time := time, epochs := epochs))
  {
    hide LogsOk, HoldingOk, SourcesOk, Placed;
  }

  /** One epoch keeps everything. */
  lemma NextValid(v: View, s: Snapshot, reports: Each<Report>, loop: Loop)
    requires Valid(v)
    ensures Valid(Next(v, s, reports, loop))
  {
    hide *;
    var c := Chosen(v, s, reports, loop);
    ChosenValid(v, s, reports, loop);
    ChosenSettles(Face(v, s, reports), c);
    SettledOk(c, s.sequence, loop, |v.machine.contests|);
    var w := Next(v, s, reports, loop);
    NextIs(v, s, reports, loop);
    TimeApart(Settled(c, s.sequence, loop, |v.machine.contests|), w.time, w.epochs);
  }

  lemma NextIs(v: View, s: Snapshot, reports: Each<Report>, loop: Loop)
    ensures var c, w := Chosen(v, s, reports, loop), Next(v, s, reports, loop);
      var settled := Settled(c, s.sequence, loop, |v.machine.contests|);
      && w == settled.(time := w.time, epochs := w.epochs)
      && w.time == Kept(settled, s, Usable(c), v.machine.state == Locked || v.machine.state == Holdover)
  {
    hide Chosen, Settled, Kept, Usable;
  }

  lemma StepValid(v: View, c: Command)
    requires Valid(v)
    ensures Valid(Step(v, c))
  {
    if c.Epoch? {
      NextValid(v, c.s, c.reports, c.loop);
      hide Valid;
    }
    hide LogsOk, Placed, HoldingOk, SourcesOk, Next;
  }

  lemma {:induction false} AfterValid(v: View, commands: seq<Command>)
    requires Valid(v)
    ensures Valid(After(v, commands))
  {
    hide Valid, Step;
    if commands != [] {
      AfterValid(v, commands[..|commands| - 1]);
      StepValid(After(v, commands[..|commands| - 1]), commands[|commands| - 1]);
    }
  }

  // ---- What an epoch does ----------------------------------------------------------------------

  lemma OnlyBest(v: View, other: nat, except: nat)
    requires other <= COUNT && (other != except || other == NONE)
    ensures IsBest(v, other, except, COUNT) <==> other == Best(v, except)
  {
    BestIsBest(v, except, COUNT);
    hide CandidateBound, Steers, BestOf;
  }

  lemma OnlyBestFallback(v: View, other: nat)
    requires other <= COUNT
    ensures IsBestFallback(v, other, COUNT) <==> other == BestFallback(v)
  {
    FallbackIsBest(v, COUNT);
    hide FallbackOf, IsFallback;
  }

  /** Free run is left for the best candidate there is, or if there is none for the
      best fallback; only the search for the RTC's second is waited for. */
  lemma FreeRunLeft(v: View, loopTracks: bool)
    requires v.machine.state == FreeRun
    ensures var m, r := FollowedFree(v, loopTracks), v.sources.rtc.report;
      var waiting := !v.machine.aligned && !v.machine.steered && v.epochs < 6 && r.present && r.timeValid && !r.edge;
      && (m.state == FreeRun || m.state == Acquire)
      && (m.state == FreeRun <==>
            waiting || (IsBest(v, NONE, NONE, COUNT) && IsBestFallback(v, NONE, COUNT)))
      && (m.state == Acquire ==>
            if IsBest(v, NONE, NONE, COUNT) then IsBestFallback(v, m.source, COUNT) && m.fallback == !SourceGood(v, m.source)
            else IsBest(v, m.source, NONE, COUNT) && !m.fallback)
  {
    hide IsBest, IsBestFallback, SourceGood, Slews, BestOf, FallbackOf;
    OnlyBest(v, NONE, NONE);
    OnlyBest(v, Best(v, NONE), NONE);
    OnlyBestFallback(v, NONE);
    OnlyBestFallback(v, BestFallback(v));
  }

  /** The epoch's contest: the best candidate besides the source in use, against
      the bound in use. */
  ghost predicate Contested(v: View, c: Contest, rival: nat, except: nat) {
    && IsBest(v, rival, except, COUNT) && c.bound == CandidateBound(v, rival) && c.incumbent == CurrentBound(v)
    && c.challenger == if c.bound * SWITCH_RATIO < c.incumbent then rival else NONE
  }

  lemma FightContests(v: View, except: nat)
    requires except < COUNT || except == NONE
    ensures Contested(v, Fight(v, Best(v, except)), Best(v, except), except)
  {
    BestIsBest(v, except, COUNT);
    hide CandidateBound, CurrentBound, IsBest, BestOf, RunAfter;
  }

  /** A source followed is kept while it is usable and not beaten. */
  lemma KeptLeft(v: View, loopTracks: bool)
    requires IsTracking(v.machine) && v.machine.source < COUNT && SourceUsable(v, v.machine.source)
    ensures var m, c := FollowedTracking(v, loopTracks), ContestOf(v);
      && Contested(v, c, Best(v, v.machine.source), v.machine.source)
      && (if c.won then m.state == Acquire && m.source == c.challenger && !m.fallback
          else m.state == v.machine.state && m.source == v.machine.source && m.fallback == v.machine.fallback)
  {
    FightContests(v, v.machine.source);
    WonByRival(v, Best(v, v.machine.source));
    hide SourceUsable, Slews, BestOf, Contested, Fight;
  }

  lemma WonByRival(v: View, rival: nat)
    ensures Fight(v, rival).won ==> Fight(v, rival).challenger == rival
  {
    hide CandidateBound, CurrentBound, RunOf;
  }

  /** One that fails is held over if holdover is within its limit; else the best
      other candidate is taken, or if there is none the epoch runs free. */
  lemma LostLeft(v: View, loopTracks: bool)
    requires IsTracking(v.machine) && v.machine.source < COUNT && !SourceUsable(v, v.machine.source)
    ensures var m := FollowedTracking(v, loopTracks);
      if CandidateBound(v, HOLDOVER_CANDIDATE) != BOUND_NONE then m.state == Holdover && m.source == v.holdover.source
      else IsBest(v, m.source, v.machine.source, COUNT) && m.state == (if m.source == NONE then FreeRun else Acquire)
  {
    hide SourceUsable, CandidateBound, Slews, BestOf, IsBest, Fight;
    BestIsBest(v, v.machine.source, COUNT);
  }

  /** A source held over is gone straight back to if its bound is no more than
      holdover's and it is captured, or taken up again uncaptured; else holdover
      goes on until it is beaten, or expires. */
  lemma HeldLeft(v: View, loopTracks: bool)
    requires v.machine.state == Holdover && v.machine.source < COUNT
    ensures var m, c := FollowedHeld(v, loopTracks), ContestOf(v);
      && (m.state == Locked <==> IsBack(v)) && (IsBack(v) ==> m.source == v.machine.source)
      && (!IsBack(v) && IsUnrouted(v) ==> m.state == Acquire && m.source == v.machine.source && !m.fallback)
      && (!IsBack(v) && !IsUnrouted(v) ==>
            && Contested(v, c, Best(v, NONE), NONE) && c.incumbent == v.holdover.boundNs
            && (if c.won then m.state == Acquire && m.source == c.challenger && !m.fallback
                else m.state == if v.holdover.boundNs > SYNCHRONISED_LIMIT_NS then FreeRun else Holdover))
  {
    hide SourceUsable, CandidateBound, IsBack, IsUnrouted, Slews, Best, IsBest, Fight, Contested, RunAfter;
    FightContests(v, NONE);
    WonByRival(v, Best(v, NONE));
    HeldIncumbent(v);
  }

  lemma UnroutedIs(v: View)
    requires v.machine.source < COUNT
    ensures IsUnrouted(v) <==> IsBest(v, v.machine.source, NONE, COUNT) && !v.sources.At(v.machine.source).report.captured
  {
    OnlyBest(v, v.machine.source, NONE);
    hide CandidateBound, BestOf, IsBest;
  }

  lemma HeldIncumbent(v: View)
    requires v.machine.state == Holdover
    ensures Fight(v, Best(v, NONE)).incumbent == v.holdover.boundNs
  {
    hide CandidateBound, Best, RunAfter;
  }

  // ---- What was asked for, and the judging ---------------------------------------------------------

  lemma ResyncedAlike(v: View)
    ensures var r := Resynced(v);
      && !r.resyncPending && r.machine.steered == v.machine.steered && r.machine.aligned == v.machine.aligned
      && r.time == v.time && r.manual == v.manual && r.linkLeap == v.linkLeap
      && r.sources == (if v.resyncPending then AFRESH else v.sources)
      && (r.holdover.ready ==> r.holdover == v.holdover)
  {
  }

  lemma SetAlike(v: View, epoch: u32)
    ensures var w := SetByHand(v, epoch);
      && !w.manual.pending && w.machine.steered == v.machine.steered && w.machine.source == v.machine.source
      && w.time.leap == v.time.leap && (v.time.known ==> w.time.known)
      && (!(v.manual.pending && !v.machine.steered) ==> w.time == v.time)
      && w.sources == v.sources && w.holdover == v.holdover && w.linkLeap == v.linkLeap && w.resyncPending == v.resyncPending
  {
    hide Wrap32, ManualSeconds, ManualStep;
  }

  /** By the time of the choice everything asked for is done, and the RTC aligned
      to if it is fit. */
  lemma FaceReady(v: View, s: Snapshot, reports: Each<Report>)
    requires Valid(v)
    ensures var f := Face(v, s, reports);
      && !f.resyncPending && !f.manual.pending
      && f.machine.steered == v.machine.steered
      && (!f.machine.steered && Aligns(f.sources.rtc) ==> f.machine.aligned)
      && (f.holdover.ready ==> f.holdover == v.holdover)
      && f.linkLeap == v.linkLeap
      && (!(v.manual.pending && !v.machine.steered) ==> f.time == v.time)
      && f.time.leap == v.time.leap && (v.time.known ==> f.time.known)
  {
    hide LogsOk, SourcesOk, HoldingOk, Aligns, Resynced, SetByHand, SourceGood, Assessed, AllHeard;
    AssessedOk(v, s, reports);
    ResyncedAlike(v);
    SetAlike(Heeded(Resynced(v), s, reports), s.sequence);
  }

  /** Every source has been judged on this epoch's report. */
  lemma FaceHeard(v: View, s: Snapshot, reports: Each<Report>, index: nat)
    ensures var f := Face(v, s, reports);
      && f.sources.At(index).report == reports.At(index)
      && (f.sources.At(index).check == Good && !v.resyncPending ==> Follows(v.sources.At(index), reports.At(index)))
      && (f.sources.At(index).check in {Good, Inaccurate} ==> Labels(reports.At(index)))
  {
    hide Heard, Resynced, Aligns, SourceGood, WithBound, SetByHand, Follows, Labels;
    ResyncedAlike(v);
    SetAlike(Heeded(Resynced(v), s, reports), s.sequence);
    var inUse := Resynced(v).machine.source;
    HeardFits(Resynced(v).sources.gnss, GNSS, s, reports.gnss, GNSS == inUse);
    HeardFits(Resynced(v).sources.ntp, NTP, s, reports.ntp, NTP == inUse);
    HeardFits(Resynced(v).sources.rtc, RTC, s, reports.rtc, RTC == inUse);
  }

  lemma HeardFits(t: Tracker, index: nat, s: Snapshot, r: Report, inUse: bool)
    ensures var h := Heard(t, index, s, r, inUse);
      && h.report == r && (h.check == Good ==> Follows(t, r)) && (h.check in {Good, Inaccurate} ==> Labels(r))
  {
    hide PhaseOf, BoundOf, Limit, Follows, RunOf;
  }

  // ---- What an epoch leaves -----------------------------------------------------------------------

  lemma SettledParts(c: View, sequence: u32, loop: Loop, epoch: nat)
    ensures var w := Settled(c, sequence, loop, epoch);
      && w.machine == Looped(c.machine, sequence, loop, epoch)
      && w.holdover == WithBound(Held(c.(machine := w.machine), loop.update))
      && w.sources == c.sources && w.time == c.time && w.linkLeap == c.linkLeap && w.manual == c.manual
      && w.resyncPending == c.resyncPending
  {
    hide Looped, WithBound, Held;
  }

  /** Everything asked for is done, the state is the right one to be in, and
      holdover starts afresh from a steered locked epoch: between those its bound
      never falls. */
  lemma StateLeft(v: View, s: Snapshot, reports: Each<Report>, loop: Loop)
    requires Valid(v)
    ensures var w := Next(v, s, reports, loop);
      && !w.resyncPending && !w.manual.pending
      && (w.machine.state == Locked ==> loop.tracks)
      && (w.machine.state == Acquire ==> !(loop.tracks && loop.lastResync != s.sequence && loop.update.measured))
      && (w.machine.state == Locked && loop.update.measured ==>
            && w.holdover.source == w.machine.source && w.holdover.age == 0
            && w.holdover.baseNs == Saturate(w.sources.At(w.machine.source).boundNs + TicksToNs(loop.update.offsetTicks))
            && (-40_000_000 <= loop.update.offsetTicks <= 40_000_000 ==>
                  TicksToNs(loop.update.offsetTicks)
                  == 25 * (if loop.update.offsetTicks < 0 then -loop.update.offsetTicks else loop.update.offsetTicks)))
      && (w.holdover.ready && !(w.machine.state == Locked && loop.update.measured) ==>
            && v.holdover.ready && w.holdover.boundNs >= v.holdover.boundNs
            && w.holdover == WithBound(Aged(v.holdover)))
  {
    hide *;
    var f, c, epoch := Face(v, s, reports), Chosen(v, s, reports, loop), |v.machine.contests|;
    ChosenValid(v, s, reports, loop);
    ChosenSettles(f, c);
    FaceReady(v, s, reports);
    NextIs(v, s, reports, loop);
    SettledParts(c, s.sequence, loop, epoch);
    Unsettled(c);
    LoopedOk(c, s.sequence, loop, epoch);
    var d := c.(machine := Looped(c.machine, s.sequence, loop, epoch));
    HeldSound(d, loop.update);
    HeldAfresh(d, loop.update);
    NsOfTicks(loop.update.offsetTicks);
  }

  lemma NsOfTicks(ticks: Ticks)
    ensures -40_000_000 <= ticks <= 40_000_000 ==> TicksToNs(ticks) == 25 * (if ticks < 0 then -ticks else ticks)
  {
  }

  /** From the choice of an epoch to its end only the loop changes the state: ACQUIRE
      ends once it tracks and has measured, in an epoch it has not stepped in, and
      LOCKED once it no longer tracks. */
  lemma LoopLeft(v: View, s: Snapshot, reports: Each<Report>, loop: Loop)
    ensures var c, w := Chosen(v, s, reports, loop).machine, Next(v, s, reports, loop);
      && (c.state == Acquire ==> w.machine.state == if loop.tracks && loop.lastResync != s.sequence && loop.update.measured then Locked else Acquire)
      && (c.state == Locked ==> w.machine.state == if loop.tracks then Locked else Acquire)
      && (c.state == FreeRun || c.state == Holdover ==> w.machine == c)
      && w.machine.source == c.source && w.machine.fallback == c.fallback && w.epochs == Wrap32(v.epochs + 1)
  {
    hide Chosen, Kept, Usable, WithBound, Held;
  }

  lemma Unsettled(c: View)
    requires Settleable(c)
    ensures LogsOk(c.machine) && Placed(c.machine, c.holdover) && HoldingOk(c.holdover)
    ensures c.machine.state == Locked ==> c.holdover.ready
    ensures c.machine.state == Holdover ==> c.holdover.boundNs <= SYNCHRONISED_LIMIT_NS
  {
    hide LogsOk, Placed, HoldingOk, SourcesOk;
  }

  lemma HeldAfresh(v: View, update: LoopUpdate)
    ensures var h := WithBound(Held(v, update));
      v.machine.state == Locked && update.measured ==>
        && h.source == v.machine.source && h.age == 0
        && h.baseNs == Saturate(v.sources.At(v.machine.source).boundNs + TicksToNs(update.offsetTicks))
  {
    hide HeldWord, Saturate, TicksToNs;
  }

  lemma ChosenAlike(v: View, s: Snapshot, reports: Each<Report>, loop: Loop)
    requires Valid(v)
    ensures var f, c, w := Face(v, s, reports), Chosen(v, s, reports, loop), Next(v, s, reports, loop);
      && c == f.(machine := c.machine) && ChosenOk(c.machine, f)
      && w.sources == f.sources && w.linkLeap == f.linkLeap
      && w.machine == Looped(c.machine, s.sequence, loop, |v.machine.contests|)
      && w.machine.source == c.machine.source && w.machine.fallback == c.machine.fallback
      && (IsTracking(w.machine) <==> IsTracking(c.machine))
  {
    hide Valid, ChosenOk, Face, Chosen, Next, Settled, LogsOk, Placed, HoldingOk;
    ChosenValid(v, s, reports, loop);
    ChosenSettles(Face(v, s, reports), Chosen(v, s, reports, loop));
    NextIs(v, s, reports, loop);
    SettledParts(Chosen(v, s, reports, loop), s.sequence, loop, |v.machine.contests|);
    Unsettled(Chosen(v, s, reports, loop));
  }

  /** The loop is given only a labelled, captured edge of a source that steers: a
      GOOD one, whose label follows its last unless every source has just been
      reset, or an INACCURATE fallback. The time of day is then its label. */
  lemma UsedIsFit(v: View, s: Snapshot, reports: Each<Report>, loop: Loop)
    requires Valid(v) && Usable(Chosen(v, s, reports, loop))
    ensures var w := Next(v, s, reports, loop);
      var index := w.machine.source;
      var t, r := w.sources.At(index), reports.At(index);
      && IsTracking(w.machine) && Steers(index) && Labels(r) && r.captured && t.report == r
      && (t.check == Good || (t.check == Inaccurate && w.machine.fallback))
      && (t.check == Good && !v.resyncPending ==> Follows(v.sources.At(index), r))
      && w.time.known && w.time.source == index && w.time.leap == LeapWith(r, v.linkLeap)
      && w.time.second == LabelEpoch(s, r, w.time.leap)
  {
    hide Valid, Face, Chosen, Next, LogsOk, Follows, Labels, LabelEpoch, LeapWith, Looped;
    var c := Chosen(v, s, reports, loop);
    ChosenAlike(v, s, reports, loop);
    FaceReady(v, s, reports);
    FaceHeard(v, s, reports, c.machine.source);
    NextIs(v, s, reports, loop);
    SettledParts(c, s.sequence, loop, |v.machine.contests|);
    KeptGiven(Settled(c, s.sequence, loop, |v.machine.contests|), s, v.machine.state == Locked || v.machine.state == Holdover);
    hide Settled, Kept;
  }

  lemma KeptGiven(v: View, s: Snapshot, wasLocked: bool)
    ensures var t, r := Kept(v, s, true, wasLocked), v.sources.At(v.machine.source).report;
      && t.known && t.source == v.machine.source && t.leap == LeapWith(r, v.linkLeap) && t.second == LabelEpoch(s, r, t.leap)
  {
    hide LabelEpoch, LeapWith, CountedOn;
  }

  /** No fallback is kept as one once it is GOOD, and until something has steered
      the epoch has been aligned to the RTC if that was ever fit. */
  lemma ChoiceLeft(v: View, s: Snapshot, reports: Each<Report>, loop: Loop)
    requires Valid(v)
    ensures var w := Next(v, s, reports, loop);
      && (w.machine.fallback ==> !SourceGood(w, w.machine.source))
      && (!w.machine.steered && Aligns(w.sources.rtc) ==> w.machine.aligned)
  {
    hide Valid, Face, Chosen, Next, LogsOk, Aligns, Placed;
    var f, c := Face(v, s, reports), Chosen(v, s, reports, loop);
    ChosenAlike(v, s, reports, loop);
    FaceReady(v, s, reports);
    ChosenGrows(f, loop.tracksBefore);
    ChosenIs(v, s, reports, loop);
    LoopedGrows(c.machine, s.sequence, loop, |v.machine.contests|);
  }

  lemma ChosenIs(v: View, s: Snapshot, reports: Each<Report>, loop: Loop)
    ensures Chosen(v, s, reports, loop) == Followed(Face(v, s, reports), loop.tracksBefore)
  {
  }

  // ---- The logs only grow --------------------------------------------------------------------------

  /** One machine further on: nothing logged is ever taken back. */
  predicate Extends(m: Machine, later: Machine) {
    m.transitions <= later.transitions && m.contests <= later.contests && m.actions <= later.actions
    && (m.steered ==> later.steered)
  }

  ghost predicate Adds(m: Machine, later: Machine, c: Contest) {
    Extends(m, later) && later.contests == m.contests + [c] && later.aligned == m.aligned
  }

  lemma EnteredAdds(m: Machine, p: Machine, c: Contest, to: State, next: nat, reason: Reason, epoch: nat)
    requires Adds(m, p, c)
    ensures Adds(m, Entered(p, to, next, reason, epoch), c)
  {
  }

  lemma AcquiredAdds(m: Machine, p: Machine, c: Contest, next: nat, reason: Reason, asFallback: bool, slew: bool, epoch: nat)
    requires Adds(m, p, c)
    ensures Adds(m, Acquired(p, next, reason, asFallback, slew, epoch), c)
  {
  }

  lemma Logged(m: Machine, c: Contest)
    ensures Adds(m, Fought(m, c), c) && Adds(m, Passed(m), Unchallenged(m))
  {
    hide RunAfter;
  }

  /** The choice of an epoch logs its contest. */
  lemma ChosenGrows(v: View, loopTracks: bool)
    ensures Adds(v.machine, Followed(v, loopTracks).machine, ContestOf(v))
  {
    hide FollowedFree, FollowedTracking, FollowedHeld, ContestOf, Adds;
    if v.machine.state == FreeRun {
      FreeGrows(v, loopTracks);
    } else if IsTracking(v.machine) {
      TrackingGrows(v, loopTracks);
    } else {
      HeldGrows(v, loopTracks);
    }
  }

  lemma FreeGrows(v: View, loopTracks: bool)
    requires v.machine.state == FreeRun
    ensures Adds(v.machine, FollowedFree(v, loopTracks), ContestOf(v))
  {
    hide Adds, Acquired, Passed, Best, BestFallback, SourceGood, Slews, TimeOfDayPending, Unchallenged;
    var m, p, e, best, fallback := v.machine, Passed(v.machine), |v.machine.contests|, Best(v, NONE), BestFallback(v);
    Logged(m, Unchallenged(m));
    AcquiredAdds(m, p, Unchallenged(m), best, Qualified, false, Slews(v, best, loopTracks), e);
    AcquiredAdds(m, p, Unchallenged(m), fallback, Qualified, !SourceGood(v, fallback), Slews(v, fallback, loopTracks), e);
  }

  lemma TrackingGrows(v: View, loopTracks: bool)
    requires IsTracking(v.machine)
    ensures Adds(v.machine, FollowedTracking(v, loopTracks), ContestOf(v))
  {
    hide Adds, Acquired, Entered, Passed, Fought, Fight, Best, CandidateBound, SourceUsable, Slews, Unchallenged;
    var m, e, best := v.machine, |v.machine.contests|, Best(v, v.machine.source);
    var p, slew, c := Passed(m), Slews(v, best, loopTracks), ContestOf(v);
    Logged(m, c);
    AcquiredAdds(m, Fought(m, c), c, best, BetterSource, false, slew, e);
    AcquiredAdds(m, p, Unchallenged(m), best, Alternative, false, slew, e);
    EnteredAdds(m, p, Unchallenged(m), Holdover, v.holdover.source, SourceLost, e);
    EnteredAdds(m, p, Unchallenged(m), FreeRun, NONE, SourceLost, e);
  }

  lemma HeldGrows(v: View, loopTracks: bool)
    requires v.machine.state == Holdover
    ensures Adds(v.machine, FollowedHeld(v, loopTracks), ContestOf(v))
  {
    hide Adds, Acquired, Entered, Passed, Fought, Fight, Best, IsBack, IsUnrouted, Slews, Unchallenged;
    var m, e, best, source := v.machine, |v.machine.contests|, Best(v, NONE), v.machine.source;
    var p, c := Passed(m), ContestOf(v);
    Logged(m, c);
    EnteredAdds(m, p, Unchallenged(m), Locked, source, SourceBack, e);
    AcquiredAdds(m, p, Unchallenged(m), source, SourceBack, false, Slews(v, source, loopTracks), e);
    AcquiredAdds(m, Fought(m, c), c, best, Alternative, false, Slews(v, best, loopTracks), e);
    EnteredAdds(m, Fought(m, c), c, FreeRun, NONE, Expired, e);
  }

  lemma LoopedGrows(m: Machine, sequence: u32, loop: Loop, epoch: nat)
    ensures var l := Looped(m, sequence, loop, epoch);
      Extends(m, l) && l.contests == m.contests && l.aligned == m.aligned && l.steered == m.steered
  {
  }

  lemma FaceGrows(v: View, s: Snapshot, reports: Each<Report>)
    ensures var m := Face(v, s, reports).machine; Extends(v.machine, m) && m.contests == v.machine.contests
  {
    hide AllHeard, Aligns, SourceGood, WithBound, Wrap32, ManualSeconds, ManualStep;
  }

  /** An epoch logs one contest, that of its choice, and takes nothing back. */
  lemma NextGrows(v: View, s: Snapshot, reports: Each<Report>, loop: Loop)
    ensures var m := Next(v, s, reports, loop).machine;
      Extends(v.machine, m) && m.contests == v.machine.contests + [ContestOf(Face(v, s, reports))]
  {
    hide Face, Chosen, Settled, Looped, ContestOf, Followed, Kept, Usable;
    var c := Chosen(v, s, reports, loop);
    FaceGrows(v, s, reports);
    ChosenGrows(Face(v, s, reports), loop.tracksBefore);
    ChosenIs(v, s, reports, loop);
    SettledParts(c, s.sequence, loop, |v.machine.contests|);
    LoopedGrows(c.machine, s.sequence, loop, |v.machine.contests|);
    NextIs(v, s, reports, loop);
  }

  // ---- The time of day counts on -----------------------------------------------------------------------

  /** With nothing to use and no time set by hand, the second is one further on. */
  lemma Counts(v: View, s: Snapshot, reports: Each<Report>, loop: Loop)
    requires Valid(v) && !Usable(Chosen(v, s, reports, loop)) && v.time.known
    requires !(v.manual.pending && !v.machine.steered)
    ensures var w := Next(v, s, reports, loop);
      && w.time.known && w.time.second == Advance(v.time.second, 1, InUse(v.time.leap))
      && w.time.leap == (if v.linkLeap.change != 0 then v.linkLeap else v.time.leap)
      && w.time.corrections == v.time.corrections
  {
    hide *;
    var c := Chosen(v, s, reports, loop);
    ChosenAlike(v, s, reports, loop);
    FaceReady(v, s, reports);
    NextIs(v, s, reports, loop);
    SettledParts(c, s.sequence, loop, |v.machine.contests|);
    KeptCounts(Settled(c, s.sequence, loop, |v.machine.contests|), s, v.machine.state == Locked || v.machine.state == Holdover);
  }

  // ---- A time set by hand, and a resync --------------------------------------------------------------

  /** The epoch after a time set by hand, with nothing to use, is labelled as
      counted on from it, through any leap second, and stepped once. */
  lemma LabelledByHand(v: View, s: Snapshot, reports: Each<Report>, loop: Loop)
    requires Valid(v) && v.manual.pending && !v.machine.steered && !Usable(Chosen(v, s, reports, loop))
    ensures var w := Next(v, s, reports, loop);
      var seconds := ManualSeconds(Wrap32(s.sequence - v.manual.epoch), v.manual.slotMs);
      && w.time.known && !w.manual.pending
      && w.time.second == Advance(Label(Wrap32(v.manual.utc + seconds - 1), false), 1, InUse(v.time.leap))
      && (InUse(v.time.leap) == NO_LEAP ==> w.time.second == Label(Wrap32(v.manual.utc + seconds), false))
      && FreeRunStep(false, ManualStep(v.manual.slotMs)) in w.machine.actions
  {
    hide *;
    var f, c, epoch := Face(v, s, reports), Chosen(v, s, reports, loop), |v.machine.contests|;
    FaceByHand(v, s, reports);
    ChosenAlike(v, s, reports, loop);
    NextIs(v, s, reports, loop);
    SettledParts(c, s.sequence, loop, epoch);
    KeptCounts(Settled(c, s.sequence, loop, epoch), s, v.machine.state == Locked || v.machine.state == Holdover);
    OneOn(v.manual.utc + ManualSeconds(Wrap32(s.sequence - v.manual.epoch), v.manual.slotMs));
    StepKept(v, s, reports, loop);
    StillThere(FreeRunStep(false, ManualStep(v.manual.slotMs)), f.machine.actions, Next(v, s, reports, loop).machine.actions);
  }

  lemma StillThere(a: Action, actions: seq<Action>, later: seq<Action>)
    requires actions <= later && a in actions
    ensures a in later
  {
  }

  lemma KeptCounts(v: View, s: Snapshot, wasLocked: bool)
    requires v.time.known
    ensures var t := Kept(v, s, false, wasLocked);
      && t.known && t.second == Advance(v.time.second, 1, InUse(v.time.leap)) && t.corrections == v.time.corrections
      && t.leap == (if v.linkLeap.change != 0 then v.linkLeap else v.time.leap)
  {
    hide SeedOf, Advance;
  }

  lemma OneOn(utc: int)
    ensures Advance(Label(Wrap32(utc - 1), false), 1, NO_LEAP) == Label(Wrap32(utc), false)
  {
  }

  lemma FaceByHand(v: View, s: Snapshot, reports: Each<Report>)
    requires Valid(v) && v.manual.pending && !v.machine.steered
    ensures var f := Face(v, s, reports);
      && !f.manual.pending && f.time.known && f.time.leap == v.time.leap && f.linkLeap == v.linkLeap
      && f.time.second == Label(Wrap32(v.manual.utc
                                       + ManualSeconds(Wrap32(s.sequence - v.manual.epoch), v.manual.slotMs) - 1), false)
      && FreeRunStep(false, ManualStep(v.manual.slotMs)) in f.machine.actions
  {
    hide AllHeard, Aligns, SourceGood, WithBound, LogsOk, SourcesOk, HoldingOk, Wrap32, ManualStep, ManualSeconds;
    var h := Heeded(Resynced(v), s, reports);
    var w := SetByHand(h, s.sequence);
    assert w.machine.actions[|h.machine.actions|] == FreeRunStep(false, ManualStep(v.manual.slotMs));
  }

  /** Whatever the sources report, the epoch of a resync runs free: none of them
      has been judged often enough since. */
  lemma ResyncRunsFree(v: View, s: Snapshot, reports: Each<Report>, loop: Loop)
    requires Valid(v) && v.resyncPending
    ensures var w := Next(v, s, reports, loop);
      w.machine.state == FreeRun && w.machine.source == NONE && !w.holdover.ready && !w.resyncPending
  {
    hide *;
    var f, c := Face(v, s, reports), Chosen(v, s, reports, loop);
    FaceAfresh(v, s, reports);
    NoneYet(f);
    FreeStays(f, loop.tracksBefore);
    ChosenIs(v, s, reports, loop);
    SettledFree(c, s.sequence, loop, |v.machine.contests|);
    NextIs(v, s, reports, loop);
  }

  lemma FreeStays(v: View, loopTracks: bool)
    requires v.machine.state == FreeRun && Best(v, NONE) == NONE && BestFallback(v) == NONE
    ensures Followed(v, loopTracks) == v.(machine := Passed(v.machine))
    ensures Passed(v.machine).state == FreeRun && Passed(v.machine).source == v.machine.source
  {
    hide Best, BestFallback, Acquired, SourceGood, Slews;
  }

  lemma SettledFree(c: View, sequence: u32, loop: Loop, epoch: nat)
    requires c.machine.state == FreeRun && !c.holdover.ready
    ensures var w := Settled(c, sequence, loop, epoch);
      w.machine == c.machine && !w.holdover.ready && w.resyncPending == c.resyncPending
  {
    hide HeldWord;
  }

  lemma NoneYet(v: View)
    requires forall i :: 0 <= i < COUNT ==> v.sources.At(i).goodRun < QUALIFY_EPOCHS && v.sources.At(i).usableRun < QUALIFY_EPOCHS
    requires v.machine.state == FreeRun
    ensures Best(v, NONE) == NONE && BestFallback(v) == NONE
  {
    BestIsBest(v, NONE, COUNT);
    FallbackIsBest(v, COUNT);
    hide BestOf, FallbackOf;
  }

  lemma FaceAfresh(v: View, s: Snapshot, reports: Each<Report>)
    requires Valid(v) && v.resyncPending
    ensures var f := Face(v, s, reports);
      && f.machine.state == FreeRun && f.machine.source == NONE && !f.holdover.ready && !f.resyncPending
      && forall i :: 0 <= i < COUNT ==> f.sources.At(i).goodRun < QUALIFY_EPOCHS && f.sources.At(i).usableRun < QUALIFY_EPOCHS
  {
    hide Heard, Aligns, SourceGood, HeldWord, LogsOk, SourcesOk, HoldingOk, Wrap32, ManualStep, ManualSeconds;
    HeardOnce(GNSS, s, reports.gnss, false);
    HeardOnce(NTP, s, reports.ntp, false);
    HeardOnce(RTC, s, reports.rtc, false);
  }

  lemma HeardOnce(index: nat, s: Snapshot, r: Report, inUse: bool)
    ensures var h := Heard(UNHEARD, index, s, r, inUse); h.goodRun <= 1 && h.usableRun <= 1
  {
    hide PhaseOf, BoundOf, Limit, Verdict;
  }

  /** A challenge is won in the tenth epoch in a row in which the same challenger's
      bound is under half the bound in use. */
  lemma WonAtTen(v: View, rival: nat)
    requires LogsOk(v.machine) && (rival == NONE || Steers(rival))
    ensures var c, f := Fight(v, rival), Fought(v.machine, Fight(v, rival));
      var ahead := rival != NONE && CandidateBound(v, rival) * SWITCH_RATIO < CurrentBound(v);
      && c.challenger == (if ahead then rival else NONE)
      && f.challengeRun == (if !ahead then 0 else if rival == v.machine.challenger then v.machine.challengeRun + 1 else 1)
      && (c.won <==> ahead && rival == v.machine.challenger && v.machine.challengeRun == SWITCH_EPOCHS - 1)
  {
    BoundOfNone(v);
    hide CandidateBound, CurrentBound, LogOk, RunOk, TransitionsOk, ActionsOk;
  }

  /** The loop is told to use the source exactly if one is followed, it is GOOD or an
      INACCURATE fallback, and its edge was captured; then how far that edge is after its
      second, to the nearest tick. A step of the source followed it is always told. */
  lemma ToldFits(v: View, s: Snapshot, reports: Each<Report>, loop: Loop)
    requires Valid(v)
    ensures var w, told := Next(v, s, reports, loop), ToldOf(Chosen(v, s, reports, loop));
      var index, r := w.machine.source, reports.At(w.machine.source);
      var tracking := w.machine.state == Acquire || w.machine.state == Locked;
      && (told.usable <==>
            && tracking && r.captured
            && (w.sources.At(index).check == Good || (w.sources.At(index).check == Inaccurate && w.machine.fallback)))
      && (told.usable ==> -12 <= 25 * told.offsetTicks - r.edgeOffsetNs <= 12)
      && (!told.usable ==> told.offsetTicks == 0)
      && (told.sourceStepped <==> tracking && r.stepped)
  {
    hide Valid, Face, Chosen, Next, LogsOk, Looped, NsToTicks, Heard;
    var c := Chosen(v, s, reports, loop);
    var index := c.machine.source;
    ChosenAlike(v, s, reports, loop);
    if index < COUNT {
      FaceSources(v, s, reports, index);
      HeardReport(if v.resyncPending then UNHEARD else v.sources.At(index), index, s, reports.At(index), index == SourceThen(v));
      NearestTick(reports.At(index).edgeOffsetNs);
    }
  }

  // ---- Candidates ---------------------------------------------------------------------------------------

  /** The last three verdicts on a source were GOOD; or INACCURATE, if that will do. */
  predicate LastThree(t: Tracker, inaccurateToo: bool) {
    var n := |t.history|;
    n >= 3 && forall k :: n - 3 <= k < n ==> t.history[k] == Good || (inaccurateToo && t.history[k] == Inaccurate)
  }

  lemma TrailsThree(t: Tracker, inaccurateToo: bool)
    ensures Trailing(t.history, inaccurateToo) >= 3 <==> LastThree(t, inaccurateToo)
  {
    var h := t.history;
    TrailingAll(h, inaccurateToo);
    if LastThree(t, inaccurateToo) {
      var one, two := h[..|h| - 1], h[..|h| - 1][..|h| - 2];
      assert one[|one| - 1] == h[|h| - 2] && two[|two| - 1] == h[|h| - 3];
      assert Trailing(two, inaccurateToo) >= 1;
      assert Trailing(one, inaccurateToo) >= 2;
    }
  }

  /** A source is a candidate, with its bound, exactly if it steers and has been GOOD
      three epochs in a row; or if it is the one followed, while it is usable. */
  lemma CandidateIs(v: View, index: nat)
    requires SourcesOk(v.sources) && index < COUNT
    ensures var t := v.sources.At(index);
      var followed := index == v.machine.source && (v.machine.state == Acquire || v.machine.state == Locked);
      CandidateBound(v, index) ==
        if index == RTC then BOUND_NONE
        else if followed then
          if t.check == Good || (t.check == Inaccurate && v.machine.fallback) then t.boundNs else BOUND_NONE
        else if LastThree(t, false) then t.boundNs else BOUND_NONE
  {
    TrailsThree(v.sources.At(index), false);
    LastIs(v.sources.At(index));
    hide Trailing, LastThree;
  }

  lemma LastIs(t: Tracker)
    requires TrackerOk(t)
    ensures LastThree(t, false) ==> t.check == Good
  {
    hide Trailing;
  }

  /** ... and holdover is one while its bound is within 100 ms. */
  lemma HoldoverIs(v: View)
    ensures CandidateBound(v, HOLDOVER_CANDIDATE)
            == if v.holdover.ready && v.holdover.boundNs <= 100_000_000 then v.holdover.boundNs else BOUND_NONE
  {
  }

  /** A source is a fallback exactly if it steers, with a bound, and has been GOOD or
      INACCURATE three epochs in a row. */
  lemma FallbackIs(v: View, index: nat)
    requires SourcesOk(v.sources) && index < COUNT
    ensures IsFallback(v, index) <==>
              index != RTC && LastThree(v.sources.At(index), true) && v.sources.At(index).boundNs < BOUND_NONE
  {
    TrailsThree(v.sources.At(index), true);
    hide Trailing, LastThree;
  }

  /** The bound in use: that of the source followed while it is usable, or holdover's. */
  lemma BoundInUse(v: View)
    requires Placed(v.machine, v.holdover) && SourcesOk(v.sources)
    ensures CurrentBound(v) == match v.machine.state
                               case FreeRun => BOUND_NONE
                               case Holdover => v.holdover.boundNs
                               case _ => if SourceUsable(v, v.machine.source) then v.sources.At(v.machine.source).boundNs else BOUND_NONE
  {
    if IsTracking(v.machine) {
      CandidateIs(v, v.machine.source);
    }
    hide LastThree;
  }

  // ---- The judging and its phases --------------------------------------------------------------------

  /** The source in use when this epoch's reports are judged: none after a resync. */
  function SourceThen(v: View): nat {
    if v.resyncPending then NONE else v.machine.source
  }

  lemma FaceSources(v: View, s: Snapshot, reports: Each<Report>, index: nat)
    requires index < COUNT
    ensures Face(v, s, reports).sources.At(index)
            == Heard(if v.resyncPending then UNHEARD else v.sources.At(index), index, s, reports.At(index), index == SourceThen(v))
  {
    hide Heard, Aligns, SourceGood, WithBound, SetByHand;
    ResyncedAlike(v);
    SetAlike(Heeded(Resynced(v), s, reports), s.sequence);
  }

  /** Each source is judged on its report of this epoch and on nothing else: within
      10 us of GNSS, or 100 us once it is in use, 50 or 100 ms of NTP, a second of
      the RTC. Its phase is how far our epoch is after its second. */
  lemma FaceJudged(v: View, s: Snapshot, reports: Each<Report>, index: nat)
    requires index < COUNT
    ensures var t, r := Face(v, s, reports).sources.At(index), reports.At(index);
      var limit := if index == GNSS then (if SourceThen(v) == GNSS then 100_000 else 10_000)
                   else if index == NTP then (if SourceThen(v) == NTP then 100_000_000 else 50_000_000) else 1_000_000_000;
      && (t.check == Good <==>
            Labels(r) && r.uncertaintyNs <= limit && (v.resyncPending || Follows(v.sources.At(index), r)))
      && (t.check == Inaccurate <==> Labels(r) && r.uncertaintyNs > limit)
      && t.phaseValid == (r.edge && s.captureValid)
      && (forall d, k :: Captured(s, r, d, k) && -HALF_TICKS <= d + k < HALF_TICKS ==> t.phaseTicks == d + k)
  {
    var t, r := Face(v, s, reports).sources.At(index), reports.At(index);
    var before := if v.resyncPending then UNHEARD else v.sources.At(index);
    FaceSources(v, s, reports, index);
    GoodWithin(before, index, s, r, index == SourceThen(v));
    HeardPhase(before, index, s, r, index == SourceThen(v));
    forall d, k | Captured(s, r, d, k) && -HALF_TICKS <= d + k < HALF_TICKS ensures t.phaseTicks == d + k {
      PhaseIs(s, r, d, k);
    }
    hide Heard, Face, PhaseOf, Labels, Captured;
  }

  lemma HeardPhase(t: Tracker, index: nat, s: Snapshot, r: Report, inUse: bool)
    ensures var h := Heard(t, index, s, r, inUse);
      h.phaseValid == (r.edge && s.captureValid) && h.phaseTicks == PhaseOf(s, r)
  {
    hide PhaseOf, Judged, BoundOf;
  }

  /** In free run, until something has steered and if it has not been done before,
      an epoch d + k ticks after the second of an RTC fit to align to is stepped by
      as much the other way, which would have put it on the second. */
  lemma AlignedOntoSecond(v: View, s: Snapshot, reports: Each<Report>, loop: Loop, d: int, k: int, moved: Snapshot)
    requires Valid(v) && v.machine.state == FreeRun && !v.machine.aligned && !v.machine.steered && !v.manual.pending
    requires Captured(s, reports.rtc, d, k) && -HALF_TICKS <= d + k < HALF_TICKS && -HALF_TICKS <= k <= HALF_TICKS
    requires Face(v, s, reports).sources.rtc.check in {Good, Inaccurate}
    requires moved == s.(capture := Wrap32(s.capture - (d + k)))
    ensures var actions := Next(v, s, reports, loop).machine.actions;
      |actions| > |v.machine.actions| && actions[|v.machine.actions|] == FreeRunStep(true, -(d + k))
    ensures PhaseOf(moved, reports.rtc) == 0
  {
    hide Valid, Captured, PhaseOf, Face, Next, Labels, Follows;
    FaceJudged(v, s, reports, RTC);
    PhaseIs(s, reports.rtc, d, k);
    StepsOntoSecond(s, reports.rtc, d, k, moved);
    HasEdge(s, reports.rtc, d, k);
    FaceAligned(v, s, reports);
    StepKept(v, s, reports, loop);
  }

  lemma HasEdge(s: Snapshot, r: Report, d: int, k: int)
    requires Captured(s, r, d, k)
    ensures s.captureValid && r.edge
  {
  }

  /** ... and no other step is asked for before the choice, but for a time set by hand. */
  lemma AlignsOnly(v: View, s: Snapshot, reports: Each<Report>)
    requires v.machine.state == FreeRun && !v.manual.pending
    ensures var f := Face(v, s, reports);
      v.machine.aligned || v.machine.steered || f.sources.rtc.check !in {Good, Inaccurate} || !reports.rtc.edge || !s.captureValid ==>
        f.machine.actions == v.machine.actions
  {
    hide Heard, SourceGood, WithBound, Face;
    FaceSources(v, s, reports, RTC);
    HeardPhase(if v.resyncPending then UNHEARD else v.sources.rtc, RTC, s, reports.rtc, RTC == SourceThen(v));
    FaceUnaligned(v, s, reports);
  }

  lemma FaceUnaligned(v: View, s: Snapshot, reports: Each<Report>)
    requires v.machine.state == FreeRun && !v.manual.pending
    ensures var f := Face(v, s, reports);
      v.machine.aligned || v.machine.steered || !Aligns(f.sources.rtc) ==> f.machine.actions == v.machine.actions
  {
    hide Aligns, Heard, SourceGood, WithBound;
  }

  lemma FaceAligned(v: View, s: Snapshot, reports: Each<Report>)
    requires v.machine.state == FreeRun && !v.machine.aligned && !v.machine.steered && !v.manual.pending
    ensures var f := Face(v, s, reports);
      Aligns(f.sources.rtc) ==> f.machine.actions == v.machine.actions + [FreeRunStep(true, -f.sources.rtc.phaseTicks)]
  {
    hide Aligns, Heard, SourceGood, WithBound;
  }

  lemma StepKept(v: View, s: Snapshot, reports: Each<Report>, loop: Loop)
    ensures Face(v, s, reports).machine.actions <= Next(v, s, reports, loop).machine.actions
  {
    hide Face, Chosen, Settled, Looped, ContestOf, Followed, Kept, Usable;
    var c := Chosen(v, s, reports, loop);
    ChosenGrows(Face(v, s, reports), loop.tracksBefore);
    ChosenIs(v, s, reports, loop);
    SettledParts(c, s.sequence, loop, |v.machine.contests|);
    LoopedGrows(c.machine, s.sequence, loop, |v.machine.contests|);
    NextIs(v, s, reports, loop);
  }

  /** A resync is slewed out of, if the loop was following a source or holding over. */
  lemma ResyncSlews(v: View, s: Snapshot, reports: Each<Report>)
    ensures Face(v, s, reports).machine.resyncSlew
            == if v.resyncPending then v.machine.state == Locked || v.machine.state == Holdover else v.machine.resyncSlew
  {
    hide Heard, Aligns, SourceGood, WithBound, Wrap32, ManualSeconds, ManualStep;
  }

  // ---- Taking up a source ------------------------------------------------------------------------------

  /** A machine further on, the loop restarted on the source it acquires, or not
      and nothing newly acquired. */
  predicate Restarts(f: View, m: Machine, loopTracks: bool) {
    || (&& m.actions == f.machine.actions && m.resyncSlew == f.machine.resyncSlew
        && (IsTracking(m) ==> f.machine.state != FreeRun && m.source == f.machine.source))
    || (&& m.state == Acquire && !m.resyncSlew
        && m.actions == f.machine.actions + [Restart(m.source, Slews(f, m.source, loopTracks))])
  }

  lemma ChosenRestarts(v: View, loopTracks: bool)
    ensures Restarts(v, Followed(v, loopTracks).machine, loopTracks)
  {
    hide FollowedFree, FollowedTracking, FollowedHeld, Restarts;
    if v.machine.state == FreeRun {
      FreeRestarts(v, loopTracks);
    } else if IsTracking(v.machine) {
      TrackingRestarts(v, loopTracks);
    } else {
      HeldRestarts(v, loopTracks);
    }
  }

  lemma FreeRestarts(v: View, loopTracks: bool)
    requires v.machine.state == FreeRun
    ensures Restarts(v, FollowedFree(v, loopTracks), loopTracks)
  {
    hide TimeOfDayPending, Best, BestFallback, SourceGood, Slews;
  }

  lemma TrackingRestarts(v: View, loopTracks: bool)
    requires IsTracking(v.machine)
    ensures Restarts(v, FollowedTracking(v, loopTracks), loopTracks)
  {
    hide Best, SourceUsable, Slews, CandidateBound, CurrentBound, RunAfter;
    WonByRival(v, Best(v, v.machine.source));
  }

  lemma HeldRestarts(v: View, loopTracks: bool)
    requires v.machine.state == Holdover
    ensures Restarts(v, FollowedHeld(v, loopTracks), loopTracks)
  {
    hide Best, IsBack, IsUnrouted, Slews, Fight, RunAfter;
  }

  /** A source is slewed onto only if the loop tracks and our epoch is within 0.2 us
      of its second for GNSS, or 150 us for NTP. */
  lemma SlewsWithin(v: View, s: Snapshot, reports: Each<Report>, index: nat, loopTracks: bool, d: int, k: int)
    requires Steers(index)
    ensures var f, r, reach := Face(v, s, reports), reports.At(index), if index == GNSS then 8 else 6000;
      && (Slews(f, index, loopTracks) ==> loopTracks && r.edge && s.captureValid)
      && (Captured(s, r, d, k) && -HALF_TICKS <= d + k < HALF_TICKS ==>
            (Slews(f, index, loopTracks) <==>
               && (f.machine.state == Locked || f.machine.state == Holdover || f.machine.resyncSlew)
               && loopTracks && -reach <= d + k <= reach))
  {
    FaceJudged(v, s, reports, index);
    hide Face, Captured, Labels, Follows;
  }

  /** Whenever a source is newly acquired the loop is restarted on it, once, and at
      no other time. It is slewed onto only if the loop tracks and our epoch is within
      0.2 us of its second for GNSS, or 150 us for NTP, and then exactly if a source was
      being followed or held over, or was when a resync was last asked for. */
  lemma RestartFits(v: View, s: Snapshot, reports: Each<Report>, loop: Loop, d: int, k: int)
    requires Valid(v)
    ensures var f, w := Face(v, s, reports).machine, Next(v, s, reports, loop).machine;
      var index := w.source;
      var slews := w.actions == f.actions + [Restart(index, true)];
      && (w.actions != f.actions ==>
            Steers(index) && IsTracking(w) && !w.resyncSlew && (slews || w.actions == f.actions + [Restart(index, false)]))
      && (w.actions == f.actions ==> w.resyncSlew == f.resyncSlew && (IsTracking(w) ==> f.state != FreeRun && index == f.source))
      && (slews ==> loop.tracksBefore && reports.At(index).edge && s.captureValid)
      && (Captured(s, reports.At(index), d, k) && -HALF_TICKS <= d + k < HALF_TICKS && w.actions != f.actions ==>
            (slews <==> && loop.tracksBefore && (f.state == Locked || f.state == Holdover || f.resyncSlew)
                        && -(if index == GNSS then 8 else 6000) <= d + k <= (if index == GNSS then 8 else 6000)))
  {
    hide *;
    var f, c := Face(v, s, reports), Chosen(v, s, reports, loop);
    ChosenIs(v, s, reports, loop);
    FollowedPlaced(v, s, reports, loop);
    ChosenRestarts(f, loop.tracksBefore);
    ChosenAlike(v, s, reports, loop);
    LoopedAsks(c.machine, s.sequence, loop, |v.machine.contests|);
    RestartOnce(f, c.machine, loop.tracksBefore);
    if IsTracking(c.machine) {
      SlewsWithin(v, s, reports, c.machine.source, loop.tracksBefore, d, k);
    }
  }

  // What the choice of an epoch does with the loop.
  lemma RestartOnce(f: View, m: Machine, loopTracks: bool)
    requires Restarts(f, m, loopTracks)
    ensures m.actions != f.machine.actions ==>
              IsTracking(m) && !m.resyncSlew && m.actions == f.machine.actions + [Restart(m.source, Slews(f, m.source, loopTracks))]
    ensures m.actions == f.machine.actions ==>
              m.resyncSlew == f.machine.resyncSlew && (IsTracking(m) ==> f.machine.state != FreeRun && m.source == f.machine.source)
    ensures f.machine.actions + [Restart(m.source, true)] != f.machine.actions
    ensures f.machine.actions + [Restart(m.source, true)] != f.machine.actions + [Restart(m.source, false)]
  {
    hide Slews;
    assert |f.machine.actions + [Restart(m.source, true)]| == |f.machine.actions| + 1;
    assert (f.machine.actions + [Restart(m.source, true)])[|f.machine.actions|] == Restart(m.source, true);
  }

  lemma FollowedPlaced(v: View, s: Snapshot, reports: Each<Report>, loop: Loop)
    requires Valid(v)
    ensures var m := Chosen(v, s, reports, loop).machine; IsTracking(m) ==> Steers(m.source)
  {
    hide Valid, Face, Chosen, Next, LogsOk;
    ChosenAlike(v, s, reports, loop);
  }

  lemma LoopedAsks(m: Machine, sequence: u32, loop: Loop, epoch: nat)
    ensures var l := Looped(m, sequence, loop, epoch); l.actions == m.actions && l.resyncSlew == m.resyncSlew
  {
  }

  /** Holdover is gone straight back from exactly when the source held over is
      usable and captured, and no worse a bound than the one in use. */
  lemma BackNoWorse(v: View, loopTracks: bool)
    requires v.machine.state == Holdover && v.machine.source < COUNT
    ensures var t, m := v.sources.At(v.machine.source), FollowedHeld(v, loopTracks);
      m.state == Locked <==> && (t.check == Good || (t.check == Inaccurate && v.machine.fallback))
                             && t.report.captured && t.boundNs <= CurrentBound(v)
  {
    hide CandidateBound, IsUnrouted, Slews, Best, Fight, RunAfter;
  }

  // ---- The label given ------------------------------------------------------------------------------------

  /** The time of day first becomes known once a usable source has a label, and is
      that of the source with the lowest bound: its second, or the next if our epoch is
      nearer to that. */
  lemma FirstLabel(v: View, s: Snapshot, reports: Each<Report>, loop: Loop, d: int, k: int)
    requires Valid(v) && !v.time.known && !v.manual.pending && !Usable(Chosen(v, s, reports, loop))
    ensures var w := Next(v, s, reports, loop);
      var best, r := w.time.source, reports.At(w.time.source);
      && (w.time.known <==> exists i :: 0 <= i < COUNT && Seeds(w.sources.At(i)))
      && (w.time.known ==>
            && best < COUNT && Seeds(w.sources.At(best))
            && (forall i :: 0 <= i < COUNT && Seeds(w.sources.At(i)) ==>
                  w.sources.At(best).boundNs < w.sources.At(i).boundNs
                  || (w.sources.At(best).boundNs == w.sources.At(i).boundNs && best <= i))
            && w.time.leap == (if r.leap.change != 0 then r.leap else v.linkLeap)
            && (Captured(s, r, d, k) && -HALF_TICKS <= d + k < 3 * HALF_TICKS ==>
                  w.time.second == Advance(Label(r.utc, r.leapSecond), if d + k < HALF_TICKS then 0 else 1, InUse(w.time.leap))))
  {
    var c, epoch := Chosen(v, s, reports, loop), |v.machine.contests|;
    ChosenAlike(v, s, reports, loop);
    FaceReady(v, s, reports);
    NextIs(v, s, reports, loop);
    SettledParts(c, s.sequence, loop, epoch);
    var w := Next(v, s, reports, loop);
    hide Valid, Face, Chosen, Next, Usable, Settled, Advance, ChosenOk, Captured, LabelEpoch, Looped, WithBound, Held, Seeds;
    KeptSeeded(Settled(c, s.sequence, loop, epoch), s, v.machine.state == Locked || v.machine.state == Holdover);
    hide Kept;
    if w.time.known {
      FaceSources(v, s, reports, w.time.source);
      HeardReport(if v.resyncPending then UNHEARD else v.sources.At(w.time.source), w.time.source, s,
                  reports.At(w.time.source), w.time.source == SourceThen(v));
      if Captured(s, reports.At(w.time.source), d, k) && -HALF_TICKS <= d + k < 3 * HALF_TICKS {
        LabelIsNearest(s, reports.At(w.time.source), w.time.leap, d, k);
      }
    }
  }

  /** Any usable source may give the first label. */
  lemma FaceSeeds(v: View, s: Snapshot, reports: Each<Report>, index: nat)
    requires index < COUNT
    ensures var t := Face(v, s, reports).sources.At(index); Seeds(t) <==> t.check == Good || t.check == Inaccurate
  {
    var before := if v.resyncPending then UNHEARD else v.sources.At(index);
    FaceSources(v, s, reports, index);
    BoundIs(before, index, s, reports.At(index), index == SourceThen(v));
    FaceJudged(v, s, reports, index);
    HeardReport(before, index, s, reports.At(index), index == SourceThen(v));
    hide Face, Heard, Follows, Captured;
  }

  lemma HeardReport(t: Tracker, index: nat, s: Snapshot, r: Report, inUse: bool)
    ensures Heard(t, index, s, r, inUse).report == r
  {
    hide PhaseOf, BoundOf, Limit, Verdict, RunOf;
  }

  lemma KeptSeeded(v: View, s: Snapshot, wasLocked: bool)
    requires !v.time.known
    ensures var t := Kept(v, s, false, wasLocked);
      && (t.known <==> exists i :: 0 <= i < COUNT && Seeds(v.sources.At(i)))
      && (t.known ==>
            var best := t.source;
            && best < COUNT && Seeds(v.sources.At(best))
            && (forall i :: 0 <= i < COUNT && Seeds(v.sources.At(i)) ==>
                  v.sources.At(best).boundNs < v.sources.At(i).boundNs
                  || (v.sources.At(best).boundNs == v.sources.At(i).boundNs && best <= i))
            && t.leap == (var r := v.sources.At(best).report; if r.leap.change != 0 then r.leap else v.linkLeap)
            && t.second == LabelEpoch(s, v.sources.At(best).report, t.leap))
  {
    SeedIsBest(v.sources, COUNT);
    hide SeedOf, LabelEpoch, Seeds;
  }

  /** The second in use is labelled by the source in use, if it is near: with the one
      our epoch is nearest. It is a correction exactly when the epoch before was locked
      or held over and the label is not the one counted on. */
  lemma GivenLabel(v: View, s: Snapshot, reports: Each<Report>, loop: Loop, d: int, k: int)
    requires Valid(v) && Usable(Chosen(v, s, reports, loop)) && !(v.manual.pending && !v.machine.steered)
    ensures var w := Next(v, s, reports, loop);
      var r := reports.At(w.machine.source);
      && w.time.leap == (if r.leap.change != 0 then r.leap else v.linkLeap)
      && w.time.corrections
         == (if && (v.machine.state == Locked || v.machine.state == Holdover)
                && v.time.known && w.time.second != Advance(v.time.second, 1, InUse(v.time.leap))
             then Wrap32(v.time.corrections + 1) else v.time.corrections)
      && (Captured(s, r, d, k) && -HALF_TICKS <= d + k < 3 * HALF_TICKS ==>
            w.time.second == Advance(Label(r.utc, r.leapSecond), if d + k < HALF_TICKS then 0 else 1, InUse(w.time.leap)))
  {
    hide *;
    var w, c := Next(v, s, reports, loop), Chosen(v, s, reports, loop);
    var r, wasLocked := reports.At(w.machine.source), v.machine.state == Locked || v.machine.state == Holdover;
    UsedIsFit(v, s, reports, loop);
    LeapIs(r, v.linkLeap);
    if Captured(s, r, d, k) && -HALF_TICKS <= d + k < 3 * HALF_TICKS {
      LabelIsNearest(s, r, w.time.leap, d, k);
    }
    ChosenAlike(v, s, reports, loop);
    FaceReady(v, s, reports);
    NextIs(v, s, reports, loop);
    SettledParts(c, s.sequence, loop, |v.machine.contests|);
    Corrections(Settled(c, s.sequence, loop, |v.machine.contests|), s, wasLocked);
  }

  lemma LeapIs(r: Report, linkLeap: UtcLeap)
    ensures LeapWith(r, linkLeap) == if r.leap.change != 0 then r.leap else linkLeap
  {
  }

  lemma Corrections(v: View, s: Snapshot, wasLocked: bool)
    ensures var t := Kept(v, s, true, wasLocked);
      t.corrections == if wasLocked && v.time.known && t.second != Advance(v.time.second, 1, InUse(v.time.leap))
                       then Wrap32(v.time.corrections + 1) else v.time.corrections
  {
    hide LabelEpoch, LeapWith, Advance, InUse;
  }

  // ---- Whole runs ---------------------------------------------------------------------------------------

  /** What the choice of a source was made from, in each epoch of a run. */
  function Faces(v: View, commands: seq<Command>): seq<View> {
    if commands == [] then []
    else
      var n := |commands| - 1;
      var c := commands[n];
      if c.Epoch? then Faces(v, commands[..n]) + [Face(After(v, commands[..n]), c.s, c.reports)]
      else Faces(v, commands[..n])
  }

  lemma StepGrows(v: View, c: Command)
    ensures var m := Step(v, c).machine;
      && Extends(v.machine, m)
      && m.contests == v.machine.contests + if c.Epoch? then [ContestOf(Face(v, c.s, c.reports))] else []
  {
    hide Next, Face, ContestOf;
    if c.Epoch? {
      NextGrows(v, c.s, c.reports, c.loop);
    }
  }

  /** However the run goes on, what it has done stays done; and each epoch's entry
      in the log is the contest of the bounds it chose by. */
  lemma {:induction false} RunGrows(v: View, commands: seq<Command>)
    ensures var m, faces := After(v, commands).machine, Faces(v, commands);
      && Extends(v.machine, m)
      && |m.contests| == |v.machine.contests| + |faces|
      && forall k :: 0 <= k < |faces| ==> m.contests[|v.machine.contests|..][k] == ContestOf(faces[k])
  {
    hide Step, Face, ContestOf;
    if commands != [] {
      var n := |commands| - 1;
      RunGrows(v, commands[..n]);
      StepGrows(After(v, commands[..n]), commands[n]);
    }
  }

  lemma ContestMeans(v: View)
    ensures var c := ContestOf(v);
      && c.stay == |v.machine.transitions|
      && (c.challenger < COUNT ==> c.bound == CandidateBound(v, c.challenger) && c.incumbent == CurrentBound(v))
  {
    hide CandidateBound, CurrentBound, SourceUsable, Best, IsBack, IsUnrouted, RunAfter;
  }

  /** A candidate whose bound is under half the bound in use. */
  predicate Ahead(v: View, rival: nat) {
    rival < COUNT && CandidateBound(v, rival) * SWITCH_RATIO < CurrentBound(v)
  }

  /** The epoch of a transition ends ten in a row, without a state change between
      them, in each of which its source was ahead. */
  predicate Earned(faces: seq<View>, t: Transition, stay: nat) {
    && SWITCH_EPOCHS - 1 <= t.epoch < |faces|
    && forall k :: t.epoch - (SWITCH_EPOCHS - 1) <= k <= t.epoch ==>
         Ahead(faces[k], t.source) && |faces[k].machine.transitions| == stay
  }

  /** Whatever the sources report, the loop does and is asked for, from start-up:
      every state change is one the design allows, from the state the last led to. */
  lemma OnlyAllowed(commands: seq<Command>)
    ensures var m := After(INIT, commands).machine;
      var ts := m.transitions;
      && (forall a :: 0 <= a < |ts| ==> Allowed(ts[a]))
      && (forall a, b :: 0 <= a && b == a + 1 && b < |ts| ==> ts[a].to == ts[b].from)
      && (if ts == [] then m.state == FreeRun else ts[0].from == FreeRun && ts[|ts| - 1].to == m.state)
  {
    hide After, Allowed, Challenged, HeldWord, LogOk, RunOk, ActionsOk, SourcesOk, Placed, HoldingOk;
    InitValid();
    AfterValid(INIT, commands);
  }

  /** No flapping: each takeover by a challenge has been earned, by the bounds the
      choice was made from; so two are at least ten epochs apart. */
  lemma TakeoversEarned(commands: seq<Command>)
    ensures var ts, faces := After(INIT, commands).machine.transitions, Faces(INIT, commands);
      && (forall a :: 0 <= a < |ts| && Challenged(ts[a]) ==> Earned(faces, ts[a], a))
      && (forall a, b :: 0 <= a < b < |ts| && Challenged(ts[a]) && Challenged(ts[b]) ==>
            ts[b].epoch - ts[a].epoch >= SWITCH_EPOCHS)
  {
    hide After, Faces, Allowed, Challenged, HeldWord, LogOk, RunOk, ActionsOk, SourcesOk, Placed, HoldingOk;
    hide TenInARow, ContestOf, TransitionsOk, Earned;
    var m, faces := After(INIT, commands).machine, Faces(INIT, commands);
    InitValid();
    AfterValid(INIT, commands);
    NoFlapping(m.transitions, m.contests, |m.transitions|, m.state);
    RunGrows(INIT, commands);
    assert m.contests[|INIT.machine.contests|..] == m.contests;
    forall a | 0 <= a < |m.transitions| && Challenged(m.transitions[a])
      ensures Earned(faces, m.transitions[a], a)
    {
      WonStay(m.transitions, m.contests, m.state, a);
      TenAhead(m.contests, faces, m.transitions[a], a);
    }
  }

  lemma WonStay(ts: seq<Transition>, log: seq<Contest>, state: State, a: nat)
    requires TransitionsOk(ts, log, state) && a < |ts| && Challenged(ts[a])
    ensures ts[a].epoch < |log| && log[ts[a].epoch].stay == a && log[ts[a].epoch].challenger == ts[a].source
  {
    hide Allowed;
  }

  lemma TenAhead(log: seq<Contest>, faces: seq<View>, t: Transition, stay: nat)
    requires |log| == |faces| && t.epoch < |log| && TenInARow(log, t.epoch)
    requires log[t.epoch].stay == stay && log[t.epoch].challenger == t.source
    requires forall k :: 0 <= k < |faces| ==> log[k] == ContestOf(faces[k])
    ensures Earned(faces, t, stay)
  {
    hide ContestOf, CandidateBound, CurrentBound;
    forall k | t.epoch - (SWITCH_EPOCHS - 1) <= k <= t.epoch
      ensures Ahead(faces[k], t.source) && |faces[k].machine.transitions| == stay
    {
      ContestMeans(faces[k]);
      assert Beats(log[k]);
    }
  }

  /** Once something has been steered by, no step is asked for any more; and the
      time of day is aligned to once at most, and not after any other step. */
  lemma StepsEnd(commands: seq<Command>)
    ensures var actions := After(INIT, commands).machine.actions;
      && (forall i, j :: 0 <= i < j < |actions| && actions[i].Restart? ==> actions[j].Restart?)
      && (forall i, j :: 0 <= i < j < |actions| && actions[i].FreeRunStep? && actions[j].FreeRunStep? ==>
            !actions[j].aligning)
  {
    hide After, HeldWord, LogOk, RunOk, TransitionsOk, SourcesOk, Placed, HoldingOk;
    InitValid();
    AfterValid(INIT, commands);
  }

  /** ACQUIRE and LOCKED name a source that steers, HOLDOVER the one held over, for
      200,000 epochs at most; FREE_RUN none. */
  lemma EachPlaced(commands: seq<Command>)
    ensures var v := After(INIT, commands);
      && Placed(v.machine, v.holdover) && HoldingOk(v.holdover)
      && (v.machine.state == Locked ==> v.holdover.ready)
      && (v.machine.state == Holdover ==> v.holdover.age <= 200_000)
  {
    hide After, LogsOk, SourcesOk, Placed, HoldingOk;
    InitValid();
    AfterValid(INIT, commands);
  }

  // ---- The time of day, over a run ------------------------------------------------------------------------

  /** Nothing to use, no time set by hand, and no other leap second announced. */
  predicate Quiet(v: View, c: Command) {
    c.Epoch? ==>
      && !Usable(Chosen(v, c.s, c.reports, c.loop)) && !(v.manual.pending && !v.machine.steered)
      && (v.linkLeap.change != 0 ==> v.linkLeap == v.time.leap)
  }

  predicate AllQuiet(v: View, commands: seq<Command>) {
    commands == []
    || (AllQuiet(v, commands[..|commands| - 1]) && Quiet(After(v, commands[..|commands| - 1]), commands[|commands| - 1]))
  }

  /** However many epochs the time of day is counted on for, it is one utc_advance()
      from the label it was counted from. */
  lemma CountedTime(v: View, commands: seq<Command>)
    requires Valid(v) && v.time.known && AllQuiet(v, commands)
    requires Happens(v.time.second, InUse(v.time.leap)) && v.time.second.utc + |Faces(v, commands)| + 1 < U32
    ensures After(v, commands).time.second == Advance(v.time.second, |Faces(v, commands)|, InUse(v.time.leap))
  {
    hide *;
    CountedOnward(v, commands);
    CountOnAdvances(v.time.second, |Faces(v, commands)|, InUse(v.time.leap));
  }

  lemma {:induction false} CountedOnward(v: View, commands: seq<Command>)
    requires Valid(v) && v.time.known && AllQuiet(v, commands)
    ensures var w := After(v, commands);
      && w.time.known && w.time.leap == v.time.leap
      && w.time.second == CountOn(v.time.second, |Faces(v, commands)|, InUse(v.time.leap))
  {
    hide Valid, Quiet, Step, Face, Advance, InUse;
    if commands != [] {
      var n := |commands| - 1;
      var w := After(v, commands[..n]);
      CountedOnward(v, commands[..n]);
      AfterValid(v, commands[..n]);
      QuietStep(w, commands[n]);
    }
  }

  lemma QuietStep(v: View, c: Command)
    requires Valid(v) && v.time.known && Quiet(v, c)
    ensures var w := Step(v, c);
      && w.time.known && w.time.leap == v.time.leap
      && w.time.second == if c.Epoch? then Advance(v.time.second, 1, InUse(v.time.leap)) else v.time.second
  {
    hide Valid, Next, Chosen, Usable, Advance, InUse;
    if c.Epoch? {
      Counts(v, c.s, c.reports, c.loop);
    }
  }

  // ---- A run from LOCKED to FREE_RUN ------------------------------------------------------------------------

  /** A report of NTP 400 ms uncertain. */
  function Coarse(n: u8): Report {
    Report(true, true, true, n, true, 0, 0, false, true, 1_800_000_000 + n, false, NO_LEAP, 400_000_000)
  }

  function CoarseEpoch(n: u8, loop: Loop): Command {
    Epoch(Snapshot(n, true, 0), Each(NO_REPORT, Coarse(n), NO_REPORT), loop)
  }

  const IDLE: Loop := Loop(false, LoopUpdate(false, false, 0), false, 0)
  const TRACKS: Loop := Loop(false, LoopUpdate(true, true, 0), true, 0)

  /** It is taken as a fallback in the third epoch, the loop locks, and it is gone in the next. */
  const COARSE_RUN: seq<Command> := [
    CoarseEpoch(1, IDLE), CoarseEpoch(2, IDLE), CoarseEpoch(3, TRACKS),
    Epoch(Snapshot(4, true, 0), Each(NO_REPORT, NO_REPORT, NO_REPORT), TRACKS)]

  // Nothing but NTP has been heard.
  predicate OnlyNtp(v: View) {
    && v.sources.gnss.check == v.sources.rtc.check == Absent && !v.sources.rtc.report.present
    && !v.resyncPending && !v.manual.pending && !v.holdover.ready
  }

  predicate Waiting(v: View, run: nat) {
    && OnlyNtp(v) && v.machine.state == FreeRun && v.machine.source == NONE && !v.machine.fallback
    && v.sources.gnss.usableRun == 0 && v.sources.ntp.usableRun == run
    && v.machine.transitions == [] && |v.machine.contests| == run
  }

  lemma PlainFace(v: View, s: Snapshot, reports: Each<Report>)
    requires !v.resyncPending && !v.manual.pending && reports.rtc == reports.gnss == NO_REPORT
    requires v.machine.fallback ==> !Labels(reports.ntp) || Classify(reports.ntp, Limit(NTP, v.machine.source == NTP)) != Good
    requires v.machine.source >= COUNT || v.machine.source == NTP
    ensures Face(v, s, reports) ==
              v.(sources := AllHeard(v.sources, s, reports, v.machine.source), holdover := WithBound(v.holdover))
  {
    hide Follows, PhaseOf, BoundOf, HeldWord, RunOf;
  }

  lemma CoarseHeard(t: Tracker, s: Snapshot, n: u8, inUse: bool)
    ensures var h := Heard(t, NTP, s, Coarse(n), inUse);
      && h.check == Inaccurate && h.usableRun == RunOf(true, t.usableRun) && h.boundNs == 400_020_000 && h.report.captured
  {
    hide Follows, PhaseOf;
  }

  lemma AbsentHeard(t: Tracker, index: nat, s: Snapshot, inUse: bool)
    ensures var h := Heard(t, index, s, NO_REPORT, inUse);
      h.check == Absent && h.usableRun == 0 && h.report == NO_REPORT
  {
    hide Follows, PhaseOf;
  }

  // With no source GOOD there is no candidate.
  lemma NoneGood(v: View, except: nat)
    requires forall i :: 0 <= i < COUNT ==> v.sources.At(i).check != Good
    requires IsTracking(v.machine) ==> v.machine.source < COUNT && (except == v.machine.source || !v.machine.fallback)
    ensures Best(v, except) == NONE
  {
    BestIsBest(v, except, COUNT);
    hide BestOf;
  }

  lemma WaitsOn(v: View, n: u8)
    requires 1 <= n <= 2 && Waiting(v, n - 1)
    ensures Waiting(Step(v, CoarseEpoch(n, IDLE)), n)
  {
    hide Heard, PhaseOf, HeldWord, Kept, BestOf, Limit, Labels, Classify, LabelEpoch;
    var s, reports := Snapshot(n, true, 0), Each(NO_REPORT, Coarse(n), NO_REPORT);
    PlainFace(v, s, reports);
    CoarseHeard(v.sources.ntp, s, n, false);
    AbsentHeard(v.sources.gnss, GNSS, s, false);
    AbsentHeard(v.sources.rtc, RTC, s, false);
    hide Face;
    NoneGood(Face(v, s, reports), NONE);
    FallbackIsBest(Face(v, s, reports), COUNT);
    hide FallbackOf;
  }

  /** Following NTP as a fallback, with holdover past its limit. */
  predicate CoarselyLocked(v: View) {
    && v.machine.state == Locked && v.machine.source == NTP && v.machine.fallback
    && v.sources.gnss.check == Absent && v.holdover.ready && v.holdover.boundNs == 400_020_000
    && v.holdover == WithBound(v.holdover)
    && !v.resyncPending && !v.manual.pending && |v.machine.contests| == 3
    && v.machine.transitions == [Transition(2, FreeRun, Acquire, NTP, Qualified), Transition(2, Acquire, Locked, NTP, Tracking)]
  }

  /** Acquiring NTP as a fallback, with nothing held over. */
  predicate CoarselyTaken(v: View) {
    && v.machine.state == Acquire && v.machine.source == NTP && v.machine.fallback
    && v.sources.gnss.check == Absent && v.sources.ntp.boundNs == 400_020_000
    && !v.resyncPending && !v.manual.pending && |v.machine.contests| == 3
    && v.machine.transitions == [Transition(2, FreeRun, Acquire, NTP, Qualified)]
  }

  lemma TakesCoarsely(v: View)
    requires Waiting(v, 2)
    ensures CoarselyTaken(Chosen(v, Snapshot(3, true, 0), Each(NO_REPORT, Coarse(3), NO_REPORT), TRACKS))
  {
    hide Heard, PhaseOf, BestOf, Limit, Labels, Classify, Slews, HeldWord;
    var s, reports := Snapshot(3, true, 0), Each(NO_REPORT, Coarse(3), NO_REPORT);
    PlainFace(v, s, reports);
    CoarseHeard(v.sources.ntp, s, 3, false);
    AbsentHeard(v.sources.gnss, GNSS, s, false);
    AbsentHeard(v.sources.rtc, RTC, s, false);
    hide Face;
    var f := Face(v, s, reports);
    NoneGood(f, NONE);
    FallbackIsBest(f, COUNT);
    hide FallbackOf;
    assert IsFallback(f, NTP) && !SourceGood(f, NTP);
  }

  lemma LocksCoarsely(v: View)
    requires Waiting(v, 2)
    ensures CoarselyLocked(Step(v, CoarseEpoch(3, TRACKS)))
  {
    hide Chosen, Kept, Coarse;
    TakesCoarsely(v);
  }

  lemma LostCoarsely(v: View)
    requires CoarselyLocked(v)
    ensures var m := Step(v, COARSE_RUN[3]).machine;
      && m.state == FreeRun && m.source == NONE
      && m.transitions == v.machine.transitions + [Transition(3, Locked, FreeRun, NONE, SourceLost)]
  {
    hide Heard, PhaseOf, Kept, BestOf, Limit, Classify, LabelEpoch, Slews, HeldWord;
    var s, reports := Snapshot(4, true, 0), Each(NO_REPORT, NO_REPORT, NO_REPORT);
    AbsentHeard(v.sources.ntp, NTP, s, true);
    PlainFace(v, s, reports);
    AbsentHeard(v.sources.gnss, GNSS, s, false);
    AbsentHeard(v.sources.rtc, RTC, s, false);
    hide Face;
    NoneGood(Face(v, s, reports), NTP);
  }

  /** LOCKED can go straight to FREE_RUN: a source that is lost is not held over
      when holdover would start past its limit. */
  lemma LockedToFreeRun()
    ensures After(INIT, COARSE_RUN).machine.transitions == [
              Transition(2, FreeRun, Acquire, NTP, Qualified), Transition(2, Acquire, Locked, NTP, Tracking),
              Transition(3, Locked, FreeRun, NONE, SourceLost)]
  {
    hide Step, CoarseEpoch;
    var c := COARSE_RUN;
    WaitsOn(INIT, 1);
    WaitsOn(Step(INIT, c[0]), 2);
    LocksCoarsely(Step(Step(INIT, c[0]), c[1]));
    LostCoarsely(Step(Step(Step(INIT, c[0]), c[1]), c[2]));
    assert c[..3][..2][..1] == [c[0]] && c[..3][..2][1] == c[1] && c[..3][2] == c[2];
    assert After(INIT, c[..3]) == Step(After(INIT, c[..3][..2]), c[2]);
    assert After(INIT, c[..3][..2]) == Step(After(INIT, [c[0]]), c[1]);
    assert After(INIT, [c[0]]) == Step(INIT, c[0]);
  }
}
