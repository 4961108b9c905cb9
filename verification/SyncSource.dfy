/** Judging a time source, epoch by epoch (sync/sync_source.c). */
module SyncSource {
  import opened MachineWords
  import opened Utc

  /** An epoch's report. Its independent cross-check is left out. */
  datatype Report = Report(
    present: bool, timeValid: bool, edge: bool, edgeSequence: u32, captured: bool, edgeStamp: u32,
    edgeOffsetNs: i32, stepped: bool, labelled: bool, utc: u32, leapSecond: bool, leap: UtcLeap,
    uncertaintyNs: u32)

  const NO_REPORT: Report :=
    Report(false, false, false, 0, false, 0, 0, false, false, 0, false, NO_LEAP, 0)

  datatype Check = Absent | NoTime | NoEdge | Unlabelled | Inaccurate | Inconsistent | Good

  /** A labelled edge: only these can be followed. */
  predicate Labels(r: Report) {
    r.present && r.timeValid && r.edge && r.labelled
  }

  /** classify(): the first check that fails, in order; GOOD if none does. */
  function Classify(r: Report, maxUncertaintyNs: u32): (c: Check)
    ensures c == Good <==> Labels(r) && (maxUncertaintyNs == 0 || r.uncertaintyNs <= maxUncertaintyNs)
    ensures c == Inaccurate || c == Good <==> Labels(r)
    ensures c != Inconsistent
  {
    if !r.present then Absent
    else if !r.timeValid then NoTime
    else if !r.edge then NoEdge
    else if !r.labelled then Unlabelled
    else if maxUncertaintyNs != 0 && r.uncertaintyNs > maxUncertaintyNs then Inaccurate
    else Good
  }

  /** The leap second a report announces. */
  function Announced(r: Report): UtcLeap {
    if r.leap.change != 0 then r.leap else NO_LEAP
  }

  /** How many of the latest verdicts in a row satisfy p. */
  function Trailing(history: seq<Check>, inaccurateToo: bool): nat {
    if history == [] || !(history[|history| - 1] == Good || (inaccurateToo && history[|history| - 1] == Inaccurate)) then 0
    else 1 + Trailing(history[..|history| - 1], inaccurateToo)
  }

  lemma {:induction false} TrailingAll(history: seq<Check>, inaccurateToo: bool)
    ensures Trailing(history, inaccurateToo) <= |history|
    ensures forall k :: |history| - Trailing(history, inaccurateToo) <= k < |history| ==>
              history[k] == Good || (inaccurateToo && history[k] == Inaccurate)
  {
    if Trailing(history, inaccurateToo) > 0 {
      TrailingAll(history[..|history| - 1], inaccurateToo);
    }
  }

  lemma TrailingNext(history: seq<Check>, check: Check, inaccurateToo: bool)
    ensures Trailing(history + [check], inaccurateToo) ==
      if check == Good || (inaccurateToo && check == Inaccurate) then Trailing(history, inaccurateToo) + 1 else 0
  {
    assert (history + [check])[..|history + [check]| - 1] == history;
  }

  function Saturated(n: nat): u16 {
    if n < U16 then n else U16 - 1
  }

  type Ticks = t: int | -0x8000_0000 < t < 0x8000_0000

  /** What is kept of a source: its verdicts so far, newest last, and from them the
      runs; and the last labelled edge, as long as there has been an edge in every
      epoch since. */
  datatype Tracker = Tracker(
    check: Check, report: Report, goodRun: u16, usableRun: u16, boundNs: u32, phaseValid: bool, phaseTicks: Ticks,
    hasLabel: bool, lastLabel: u32, lastLabelLeap: bool, lastLabelEdge: u32, history: seq<Check>)

  const UNHEARD: Tracker := Tracker(Absent, NO_REPORT, 0, 0, 0, false, 0, false, 0, false, 0, [])

  /** The runs count the verdicts, and a verdict says what the report held. */
  ghost predicate TrackerOk(t: Tracker) {
    && t.goodRun == Saturated(Trailing(t.history, false))
    && t.usableRun == Saturated(Trailing(t.history, true))
    && (t.check == Good || t.check == Inaccurate ==> Labels(t.report))
    && t.check == if t.history == [] then Absent else t.history[|t.history| - 1]
  }

  /** The label is the last one, counted on by the edges between. */
  predicate Follows(t: Tracker, r: Report) {
    t.hasLabel ==>
      Advance(Label(t.lastLabel, t.lastLabelLeap), Wrap32(r.edgeSequence - t.lastLabelEdge), Announced(r))
      == Label(r.utc, r.leapSecond)
  }

  /** n edges on from the last labelled, through the leap second this report announces,
      if any; without one, and not on from a leap second, n seconds. */
  lemma FollowsIs(t: Tracker, r: Report, n: u32)
    requires t.hasLabel && r.edgeSequence == Wrap32(t.lastLabelEdge + n)
    ensures r.leap.change != 0 ==>
              (Follows(t, r) <==> Advance(Label(t.lastLabel, t.lastLabelLeap), n, r.leap) == Label(r.utc, r.leapSecond))
    ensures r.leap.change == 0 && !t.lastLabelLeap ==> (Follows(t, r) <==> r.utc == Wrap32(t.lastLabel + n) && !r.leapSecond)
    ensures r.leap.change == 0 ==>
              (Follows(t, r) <==> Advance(Label(t.lastLabel, t.lastLabelLeap), n, NO_LEAP) == Label(r.utc, r.leapSecond))
  {
    assert Wrap32(r.edgeSequence - t.lastLabelEdge) == n;
    if r.leap.change == 0 && !t.lastLabelLeap {
      PlainAdvance(t.lastLabel, n);
    }
    hide Advance;
  }

  lemma PlainAdvance(utc: u32, n: u32)
    ensures Advance(Label(utc, false), n, NO_LEAP) == Label(Wrap32(utc + n), false)
  {
  }

  /** The verdict on a report: a label that does not follow demotes only a GOOD one. */
  function Verdict(t: Tracker, r: Report, maxUncertaintyNs: u32): Check {
    if Classify(r, maxUncertaintyNs) == Good && !Follows(t, r) then Inconsistent else Classify(r, maxUncertaintyNs)
  }

  function RunOf(goes: bool, run: u16): u16 {
    if !goes then 0 else if run < U16 - 1 then run + 1 else run
  }

  /** sync_source_judge() */
  function Judged(t: Tracker, r: Report, maxUncertaintyNs: u32): Tracker {
    var c := Verdict(t, r, maxUncertaintyNs);
    var judged := t.(check := c, report := r, history := t.history + [c], goodRun := RunOf(c == Good, t.goodRun),
                     usableRun := RunOf(c == Good || c == Inaccurate, t.usableRun));
    if Labels(r) then
      judged.(hasLabel := true, lastLabel := r.utc, lastLabelLeap := r.leapSecond, lastLabelEdge := r.edgeSequence)
    else judged.(hasLabel := t.hasLabel && r.present && r.edge)
  }

  lemma JudgedOk(t: Tracker, r: Report, maxUncertaintyNs: u32)
    requires TrackerOk(t)
    ensures TrackerOk(Judged(t, r, maxUncertaintyNs))
  {
    hide Follows, Trailing;
    var c := Verdict(t, r, maxUncertaintyNs);
    TrailingNext(t.history, c, false);
    TrailingNext(t.history, c, true);
  }

  class SourceTracker {
    var check: Check
    var report: Report
    var goodRun: u16
    var usableRun: u16
    var boundNs: u32
    var phaseValid: bool
    var phaseTicks: Ticks
    var hasLabel: bool
    var lastLabel: u32
    var lastLabelLeap: bool
    var lastLabelEdge: u32
    ghost var history: seq<Check>

    ghost function Record(): Tracker
      reads this
    {
      Tracker(check, report, goodRun, usableRun, boundNs, phaseValid, phaseTicks,
              hasLabel, lastLabel, lastLabelLeap, lastLabelEdge, history)
    }

    constructor ()
      ensures Record() == UNHEARD
    {
      check, report, goodRun, usableRun, boundNs := Absent, NO_REPORT, 0, 0, 0;
      phaseValid, phaseTicks := false, 0;
      hasLabel, lastLabel, lastLabelLeap, lastLabelEdge := false, 0, false, 0;
      history := [];
    }

    /** sync_source_reset() */
    method Reset()
      modifies this
      ensures Record() == UNHEARD
    {
      check, report, goodRun, usableRun, boundNs := Absent, NO_REPORT, 0, 0, 0;
      phaseValid, phaseTicks := false, 0;
      hasLabel, lastLabel, lastLabelLeap, lastLabelEdge := false, 0, false, 0;
      history := [];
    }

    /** label_follows_on() */
    method LabelFollowsOn(r: Report) returns (follows: bool)
      modifies this
      ensures follows == Follows(old(Record()), r)
      ensures Record() == old(Record()).(hasLabel := true, lastLabel := r.utc, lastLabelLeap := r.leapSecond,
                                         lastLabelEdge := r.edgeSequence)
    {
      hide Advance;
      follows := true;
      if hasLabel {
        var edges := Wrap32(r.edgeSequence - lastLabelEdge);
        var expected := Advance(Label(lastLabel, lastLabelLeap), edges, if r.leap.change != 0 then r.leap else NO_LEAP);
        follows := expected.utc == r.utc && expected.leap == r.leapSecond;
      }
      hasLabel := true;
      lastLabel := r.utc;
      lastLabelLeap := r.leapSecond;
      lastLabelEdge := r.edgeSequence;
    }

    /** sync_source_judge() */
    method Judge(r: Report, maxUncertaintyNs: u32)
      modifies this
      ensures Record() == Judged(old(Record()), r, maxUncertaintyNs)
    {
      hide Follows, Classify, RunOf;
      var verdict := Classify(r, maxUncertaintyNs);
      if !r.present || !r.edge {
        hasLabel := false;
      }
      if r.present && r.timeValid && r.edge && r.labelled {
        var follows := LabelFollowsOn(r);
        if !follows && verdict == Good {
          verdict := Inconsistent;
        }
      }
      report := r;
      check := verdict;
      history := history + [check];
      CountRuns();
    }

    // The runs go on or end with this verdict.
    method CountRuns()
      modifies this`goodRun, this`usableRun
      ensures goodRun == RunOf(check == Good, old(goodRun))
      ensures usableRun == RunOf(check == Good || check == Inaccurate, old(usableRun))
    {
      if check == Good {
        if goodRun < U16 - 1 {
          goodRun := goodRun + 1;
        }
      } else {
        goodRun := 0;
      }
      if check == Good || check == Inaccurate {
        if usableRun < U16 - 1 {
          usableRun := usableRun + 1;
        }
      } else {
        usableRun := 0;
      }
    }
  }

  /** A whole run of reports, judged one after another. */
  function JudgedAll(t: Tracker, reports: seq<Report>, limits: seq<u32>): Tracker
    requires |limits| == |reports|
  {
    if reports == [] then t
    else
      var n := |reports| - 1;
      Judged(JudgedAll(t, reports[..n], limits[..n]), reports[n], limits[n])
  }

  // ---- A source that keeps time ----------------------------------------------

  /** The i-th report numbers its edges from a count that never goes back, and a
      labelled edge carries the timeline's label under one announcement. */
  predicate OnTimeline(reports: seq<Report>, edges: seq<nat>, start: Label, leap: UtcLeap) {
    && |edges| == |reports| && Happens(start, leap)
    && (forall i, j :: 0 <= i <= j < |edges| ==> edges[i] <= edges[j])
    && (forall i :: 0 <= i < |reports| && Labels(reports[i]) ==>
          && reports[i].edgeSequence == Wrap32(edges[i]) && Announced(reports[i]) == leap
          && edges[i] < U32 && start.utc + edges[i] + 1 < U32
          && Label(reports[i].utc, reports[i].leapSecond) == Advance(start, edges[i], leap))
  }

  /** The last labelled edge of a run, or -1. */
  function LastLabelled(reports: seq<Report>): (k: int)
    ensures -1 <= k < |reports|
    ensures k >= 0 ==> Labels(reports[k])
    ensures forall j :: k < j < |reports| ==> !Labels(reports[j])
  {
    if reports == [] then -1
    else if Labels(reports[|reports| - 1]) then |reports| - 1
    else LastLabelled(reports[..|reports| - 1])
  }

  /** A verdict is the classification, demoted only at the first labelled edge. */
  predicate Demoted(t: Tracker, reports: seq<Report>, i: nat, verdict: Check, c: Check)
    requires i < |reports|
  {
    verdict == c || (verdict == Inconsistent && c == Good && t.hasLabel && LastLabelled(reports[..i]) < 0)
  }

  /** A tracker's label, if it still counts, is the last one of the run. */
  predicate Remembers(t: Tracker, after: Tracker, k: int, edge: nat, start: Label, leap: UtcLeap) {
    if k < 0 then after.hasLabel ==> t.hasLabel
    else
      && edge < U32 && after.lastLabelEdge == edge
      && Label(after.lastLabel, after.lastLabelLeap) == Advance(start, edge, leap)
  }

  /** Whatever state a tracker is in, a source labelling its edges by the
      timeline, through any leap second, is never judged inconsistent but for the
      first labelled edge, when that does not follow the label before: one that
      moves its time loses a single epoch. Epochs without
      an edge, without a label or too inaccurate may come between. */
  lemma {:induction false} NeverInconsistent(t: Tracker, reports: seq<Report>, limits: seq<u32>, edges: seq<nat>,
                                             start: Label, leap: UtcLeap)
    requires |limits| == |reports| && OnTimeline(reports, edges, start, leap)
    ensures var after, k := JudgedAll(t, reports, limits), LastLabelled(reports);
      && |after.history| == |t.history| + |reports| && after.history[..|t.history|] == t.history
      && (forall i :: 0 <= i < |reports| ==>
            Demoted(t, reports, i, after.history[|t.history|..][i], Classify(reports[i], limits[i])))
      && Remembers(t, after, k, if k < 0 then 0 else edges[k], start, leap)
  {
    hide Advance, Classify, Remembers, Judged, Happens;
    if reports == [] {
      NothingYet(t, start, leap);
    } else {
      var n := |reports| - 1;
      var before, k := JudgedAll(t, reports[..n], limits[..n]), LastLabelled(reports[..n]);
      NeverInconsistent(t, reports[..n], limits[..n], edges[..n], start, leap);
      OnTime(reports, edges, start, leap, k, n);
      OneReport(t, before, reports[n], limits[n], k, if k < 0 then 0 else edges[k], n, edges[n], start, leap);
      var c := Verdict(before, reports[n], limits[n]);
      var heard := before.history[|t.history|..];
      assert JudgedAll(t, reports, limits).history[|t.history|..] == heard + [c];
      DemotedOn(t, reports, limits, heard, c);
    }
  }

  lemma DemotedOn(t: Tracker, reports: seq<Report>, limits: seq<u32>, heard: seq<Check>, c: Check)
    requires |limits| == |reports| == |heard| + 1
    requires forall i :: 0 <= i < |heard| ==>
               Demoted(t, reports[..|heard|], i, heard[i], Classify(reports[..|heard|][i], limits[..|heard|][i]))
    requires Demoted(t, reports, |heard|, c, Classify(reports[|heard|], limits[|heard|]))
    ensures forall i :: 0 <= i < |reports| ==> Demoted(t, reports, i, (heard + [c])[i], Classify(reports[i], limits[i]))
  {
    hide Classify;
    var n := |heard|;
    forall i | 0 <= i < |reports|
      ensures Demoted(t, reports, i, (heard + [c])[i], Classify(reports[i], limits[i]))
    {
      if i < n {
        assert Demoted(t, reports[..n], i, heard[i], Classify(reports[..n][i], limits[..n][i]));
        assert reports[..n][..i] == reports[..i];
      }
    }
  }

  lemma NothingYet(t: Tracker, start: Label, leap: UtcLeap)
    ensures Remembers(t, t, -1, 0, start, leap)
  {
  }

  lemma OnTime(reports: seq<Report>, edges: seq<nat>, start: Label, leap: UtcLeap, k: int, n: nat)
    requires OnTimeline(reports, edges, start, leap) && -1 <= k < n < |reports| && (k >= 0 ==> Labels(reports[k]))
    ensures Happens(start, leap) && (k >= 0 ==> edges[k] <= edges[n])
    ensures Labels(reports[n]) ==>
              && reports[n].edgeSequence == edges[n] && Announced(reports[n]) == leap && edges[n] < U32
              && start.utc + edges[n] + 1 < U32
              && Label(reports[n].utc, reports[n].leapSecond) == Advance(start, edges[n], leap)
  {
    hide Advance;
  }

  // One report more: its label follows the last of the run, and becomes it.
  lemma OneReport(t: Tracker, before: Tracker, r: Report, limit: u32, k: int, edge: nat, n: nat, next: nat,
                  start: Label, leap: UtcLeap)
    requires Remembers(t, before, k, edge, start, leap) && Happens(start, leap) && (k >= 0 ==> edge <= next)
    requires Labels(r) ==>
               && r.edgeSequence == next && Announced(r) == leap && next < U32 && start.utc + next + 1 < U32
               && Label(r.utc, r.leapSecond) == Advance(start, next, leap)
    ensures Judged(before, r, limit).history == before.history + [Verdict(before, r, limit)]
    ensures Verdict(before, r, limit) == Classify(r, limit)
              || (Verdict(before, r, limit) == Inconsistent && Classify(r, limit) == Good && t.hasLabel && k < 0)
    ensures Labels(r) ==> Remembers(t, Judged(before, r, limit), n, next, start, leap)
    ensures !Labels(r) ==> Remembers(t, Judged(before, r, limit), k, edge, start, leap)
  {
    hide Advance, Happens;
    if Labels(r) && k >= 0 {
      TimelineFollows(start, leap, edge, next);
    }
  }

  /** The judging of such a source, report by report. */
  method JudgeRun(tracker: SourceTracker, reports: seq<Report>, limits: seq<u32>, ghost edges: seq<nat>,
                  ghost start: Label, ghost leap: UtcLeap)
    returns (verdicts: seq<Check>)
    requires |limits| == |reports| && OnTimeline(reports, edges, start, leap)
    modifies tracker
    ensures tracker.Record() == JudgedAll(old(tracker.Record()), reports, limits)
    ensures tracker.history == old(tracker.history) + verdicts && |verdicts| == |reports|
    ensures forall i :: 0 <= i < |reports| ==>
              Demoted(old(tracker.Record()), reports, i, verdicts[i], Classify(reports[i], limits[i]))
  {
    hide Classify, Judged;
    verdicts := [];
    ghost var t := tracker.Record();
    var n := 0;
    while n < |reports|
      invariant n <= |reports| && |verdicts| == n
      invariant tracker.Record() == JudgedAll(t, reports[..n], limits[..n])
      invariant tracker.history == t.history + verdicts
    {
      tracker.Judge(reports[n], limits[n]);
      JudgedNext(JudgedAll(t, reports[..n], limits[..n]), reports[n], limits[n]);
      assert reports[..n + 1][..n] == reports[..n] && limits[..n + 1][..n] == limits[..n];
      verdicts := verdicts + [tracker.check];
      n := n + 1;
    }
    assert reports[..n] == reports && limits[..n] == limits;
    NeverInconsistent(t, reports, limits, edges, start, leap);
    assert tracker.history[|t.history|..] == verdicts;
  }

  lemma JudgedNext(t: Tracker, r: Report, limit: u32)
    ensures Judged(t, r, limit).history == t.history + [Judged(t, r, limit).check]
  {
  }

  lemma TimelineFollows(start: Label, leap: UtcLeap, a: nat, b: nat)
    requires Happens(start, leap) && a <= b < U32 && start.utc + b + 1 < U32
    ensures Advance(Advance(start, a, leap), Wrap32(b - a), leap) == Advance(start, b, leap)
  {
    hide Advance;
    Composes(start, a, b - a, leap);
    assert Wrap32(b - a) == b - a;
  }
}
