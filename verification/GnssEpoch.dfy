/** Navigation epochs put together from the receiver's messages
    (gnss/gnss_epoch.c). */
module GnssEpochs {
  import opened MachineWords
  import opened Utc
  import opened Calendar

  const ALIGNMENT_LIMIT_NS: int := 100_000_000
  const ASSOCIATION_WINDOW_MS: nat := 950
  const NS_PER_SECOND: int := 1_000_000_000
  const HALF_SECOND_NS: int := 500_000_000

  /** The messages, as far as the assembler looks into them. */
  datatype Status = Status(timeOfWeek: u32, fixUsable: bool)
  datatype TimeUtc = TimeUtc(timeOfWeek: u32, civil: Civil, fractionNs: i32, fullyValid: bool)
  datatype Clock = Clock(timeOfWeek: u32, biasNs: i32, driftNs: i32)
  datatype Position = Position(timeOfWeek: u32, latitude: i32, longitude: i32, heightMm: i32)

  datatype Option<T> = None | Some(value: T)

  /** The PPS edge taken as an epoch's own. */
  datatype PpsReference = PpsReference(sequence: u32, observedMs: u32, valid: bool)

  /** The time derived for an epoch: its second, whether that is a leap second, and
      how far from it. */
  datatype Derived = Derived(timeValid: bool, second: Label, offsetNs: int)

  /** A snapshot, or one under construction: the parts as they come in. */
  datatype Snapshot = Snapshot(
    timeOfWeek: u32, status: Option<Status>, timeUtc: Option<TimeUtc>, clock: Option<Clock>,
    position: Option<Position>, time: Derived, pps: Option<u32>, ended: bool)

  function Fresh(timeOfWeek: u32): Snapshot {
    Snapshot(timeOfWeek, None, None, None, None, Derived(false, Label(0, false), 0), None, false)
  }

  /** Every part belongs to the snapshot's own time of week. */
  predicate OneEpoch(s: Snapshot) {
    && (s.status.Some? ==> s.status.value.timeOfWeek == s.timeOfWeek)
    && (s.timeUtc.Some? ==> s.timeUtc.value.timeOfWeek == s.timeOfWeek)
    && (s.clock.Some? ==> s.clock.value.timeOfWeek == s.timeOfWeek)
    && (s.position.Some? ==> s.position.value.timeOfWeek == s.timeOfWeek)
  }

  predicate Complete(s: Snapshot) {
    s.status.Some? && s.timeUtc.Some? && OneEpoch(s) && s.time == DeriveTime(s.status.value, s.timeUtc.value)
  }

  // ---- The time of an epoch ---------------------------------------------------

  /** calendar_is_plausible() */
  predicate Plausible(c: Civil) {
    2020 <= c.date.year < LAST_YEAR && CivilIsValid(c)
  }

  lemma PlausibleDate(c: Civil)
    requires Plausible(c)
    ensures RealTime(c)
  {
  }

  /** derive_time() */
  function DeriveTime(status: Status, time: TimeUtc): Derived {
    if !Plausible(time.civil) then Derived(false, Label(0, time.civil.second == 60), 0)
    else
      PlausibleDate(time.civil);
      var whole := FromCivil(time.civil);
      var carry := if time.fractionNs >= HALF_SECOND_NS then 1 else if time.fractionNs < -HALF_SECOND_NS then -1 else 0;
      var offset := time.fractionNs - carry * NS_PER_SECOND;
      Derived(status.fixUsable && time.fullyValid && -ALIGNMENT_LIMIT_NS <= offset <= ALIGNMENT_LIMIT_NS,
              Label(Wrap32(whole + carry), time.civil.second == 60), offset)
  }

  /** A plausible time keeps its value: the second nearest it, and what is left over,
      half a second at most for a fraction of under a second and a half. */
  lemma DerivedTime(status: Status, time: TimeUtc)
    requires Plausible(time.civil)
    ensures var d := DeriveTime(status, time);
      && ValidDate(time.civil.date) && time.civil.date.year >= 1970
      && d.second.utc * NS_PER_SECOND + d.offsetNs == FromCivil(time.civil) * NS_PER_SECOND + time.fractionNs
      && (-3 * HALF_SECOND_NS <= time.fractionNs < 3 * HALF_SECOND_NS ==>
            -HALF_SECOND_NS <= d.offsetNs < HALF_SECOND_NS)
  {
    hide DaysFromCivil, FromCivil, CivilIsValid, ValidDate;
    PlausibleDate(time.civil);
    AfterEpoch(time.civil);
  }

  /** A time is valid exactly if the receiver vouches for all of it, the year is one
      that it can be, and the fraction is within 100 ms of a whole second: of its own,
      or of the one before or after. */
  lemma TimeValidIs(status: Status, time: TimeUtc)
    ensures var f := time.fractionNs;
      DeriveTime(status, time).timeValid
      <==> && status.fixUsable && time.fullyValid && CivilIsValid(time.civil) && 2020 <= time.civil.date.year <= 2105
           && (|| -100_000_000 <= f <= 100_000_000
               || 900_000_000 <= f <= 1_100_000_000
               || -1_100_000_000 <= f <= -900_000_000)
  {
    hide FromCivil, CivilIsValid;
  }

  // A plausible time is well inside the 32-bit count, at either end.
  lemma AfterEpoch(c: Civil)
    requires RealTime(c) && 2020 <= c.date.year < LAST_YEAR
    ensures 0 < DaysFromCivil(c.date) < 49709
    ensures 0 < FromCivil(c) < U32 - 1
  {
    hide DaysFromCivil, ValidDate;
    EarlyDates(c.date);
    Since2020(c.date);
    Bounded(DaysFromCivil(c.date), c.hour, c.minute, if c.second > 59 then 59 else c.second);
  }

  lemma Bounded(days: int, hour: nat, minute: nat, second: nat)
    requires 0 < days < 49709 && hour <= 23 && minute <= 59 && second <= 59
    ensures 0 < days * SECONDS_PER_DAY + hour * 3600 + minute * 60 + second < U32 - 1
  {
  }

  lemma Since2020(d: Date)
    requires ValidDate(d) && 2020 <= d.year
    ensures DaysFromCivil(d) > 0
  {
  }

  /** The whole seconds a fraction rounds by. */
  function Carry(fractionNs: i32): int {
    if fractionNs >= HALF_SECOND_NS then 1 else if fractionNs < -HALF_SECOND_NS then -1 else 0
  }

  /** A step of one from this second meets the leap second: it starts from an
      inserted one, or goes over its place or that of a deleted one. */
  predicate Crosses(at: Label, step: int, leap: UtcLeap) {
    step != 0 && leap.change != 0
    && (at.leap || (step == 1 && at.utc == leap.event - (if leap.change > 0 then 1 else 2)) || (step == -1 && at.utc == leap.event))
  }

  /** An epoch of a second that happens is labelled with its nearest second on the
      timeline, and how far from it, if and only if its fraction does not round it
      across the leap second: the rounding counts Unix seconds, and the flag
      stays the calendar's. */
  lemma LabelledOnTimeline(status: Status, time: TimeUtc, leap: UtcLeap)
    requires Plausible(time.civil)
    ensures ValidDate(time.civil.date) && time.civil.date.year >= 1970
    ensures var at := Label(Wrap32(FromCivil(time.civil)), time.civil.second == 60);
      var d := DeriveTime(status, time);
      Happens(at, leap) ==>
        (!Crosses(at, Carry(time.fractionNs), leap) <==>
           && Happens(d.second, leap)
           && Elapsed(d.second, leap) * NS_PER_SECOND + d.offsetNs == Elapsed(at, leap) * NS_PER_SECOND + time.fractionNs)
  {
    hide DaysFromCivil, FromCivil, CivilIsValid, ValidDate;
    PlausibleDate(time.civil);
    AfterEpoch(time.civil);
  }

  /** 50 ms before an inserted second, the label is of the second after it, two
      real seconds on, and passes as valid. */
  lemma BesideInserted()
    ensures var time := TimeUtc(0, Civil(Date(2028, 12, 31), 23, 59, 59), 950_000_000, true);
      var at, d := Label(1_861_919_999, false), DeriveTime(Status(0, true), time);
      var leap := UtcLeap(1_861_920_000, 1);
      && d == Derived(true, Label(1_861_920_000, false), -50_000_000)
      && Happens(at, leap) && Elapsed(d.second, leap) == Elapsed(at, leap) + 2
  {
    var c := Civil(Date(2028, 12, 31), 23, 59, 59);
    assert DaysFromCivil(c.date) == 21549;
    assert FromCivil(c) == 1_861_919_999;
  }

  // ---- The assembler ------------------------------------------------------------

  /** An epoch as published, and the edge that was the latest then, counted without
      wrapping. */
  datatype Publication = Publication(epoch: Snapshot, edge: nat)

  /** What has been put together so far; building counts while active. The edges
      are the last labelled and the latest seen. */
  datatype Assembly = Assembly(
    building: Snapshot, active: bool, published: Option<Snapshot>, lastLabelled: Option<u32>,
    history: seq<Publication>, labelledEdge: nat, latestEdge: nat)

  /** gnss_epoch_init() */
  const NOTHING: Assembly := Assembly(Fresh(0), false, None, None, [], 0, 0)

  function PublishedWeek(a: Assembly): Option<u32> {
    if a.published.Some? then Some(a.published.value.timeOfWeek) else None
  }

  /** is_published_epoch() */
  predicate IsPublished(a: Assembly, timeOfWeek: u32) {
    PublishedWeek(a) == Some(timeOfWeek)
  }

  predicate IsBuilding(a: Assembly, timeOfWeek: u32) {
    a.active && a.building.timeOfWeek == timeOfWeek
  }

  /** building_epoch() */
  function Begun(a: Assembly, timeOfWeek: u32): Snapshot {
    if IsBuilding(a, timeOfWeek) then a.building else Fresh(timeOfWeek)
  }

  function Built(a: Assembly, building: Snapshot): Assembly {
    a.(building := building, active := true)
  }

  /** associate_pps(): the latest edge is the epoch's own if it is recent and no
      epoch has had it. */
  predicate Associates(a: Assembly, nowMs: u32, pps: PpsReference) {
    pps.valid && Wrap32(nowMs - pps.observedMs) < ASSOCIATION_WINDOW_MS && a.lastLabelled != Some(pps.sequence)
  }

  /** publish() */
  function Published(a: Assembly, whole: Snapshot, nowMs: u32, pps: PpsReference, edge: nat): Assembly
    requires whole.status.Some? && whole.timeUtc.Some?
  {
    var associated := Associates(a, nowMs, pps);
    var epoch := whole.(time := DeriveTime(whole.status.value, whole.timeUtc.value),
                        pps := if associated then Some(pps.sequence) else None);
    Assembly(epoch, false, Some(epoch), if associated then Some(pps.sequence) else a.lastLabelled,
             a.history + [Publication(epoch, edge)], if associated then edge else a.labelledEdge, edge)
  }

  /** A required part taken in: published as soon as both are there, once. */
  function Joined(a: Assembly, building: Snapshot, nowMs: u32, pps: PpsReference, edge: nat): Assembly {
    if building.status.Some? && building.timeUtc.Some? then Published(a, building, nowMs, pps, edge)
    else Built(a, building).(latestEdge := edge)
  }

  datatype Message =
    | StatusMessage(status: Status, nowMs: u32, pps: PpsReference)
    | TimeMessage(time: TimeUtc, nowMs: u32, pps: PpsReference)
    | ClockMessage(clock: Clock)
    | PositionMessage(position: Position)
    | EndMessage(endOf: u32)

  predicate Timed(m: Message) {
    m.StatusMessage? || m.TimeMessage?
  }

  function Week(m: Message): u32 {
    match m
    case StatusMessage(status, _, _) => status.timeOfWeek
    case TimeMessage(time, _, _) => time.timeOfWeek
    case ClockMessage(clock) => clock.timeOfWeek
    case PositionMessage(position) => position.timeOfWeek
    case EndMessage(endOf) => endOf
  }

  /** A message of the epoch published joins it, or repeats what it has. */
  function Late(s: Snapshot, m: Message): Snapshot {
    match m
    case StatusMessage(_, _, _) => s
    case TimeMessage(_, _, _) => s
    case ClockMessage(clock) => s.(clock := Some(clock))
    case PositionMessage(position) => s.(position := Some(position))
    case EndMessage(_) => s.(ended := true)
  }

  /** A message taken in. */
  function Taken(a: Assembly, m: Message, edge: nat): Assembly {
    var week := Week(m);
    if IsPublished(a, week) then
      a.(published := Some(Late(a.published.value, m)), latestEdge := if Timed(m) then edge else a.latestEdge)
    else
      var begun := Begun(a, week);
      match m
      case StatusMessage(status, nowMs, pps) => Joined(a, begun.(status := Some(status)), nowMs, pps, edge)
      case TimeMessage(time, nowMs, pps) => Joined(a, begun.(timeUtc := Some(time)), nowMs, pps, edge)
      case ClockMessage(clock) => Built(a, begun.(clock := Some(clock)))
      case PositionMessage(position) => Built(a, begun.(position := Some(position)))
      case EndMessage(_) => a.(active := a.active && a.building.timeOfWeek != week)
  }

  /** A run of messages, and the edge that was the latest as each came in. */
  function AllTaken(a: Assembly, messages: seq<Message>, edges: seq<nat>): Assembly
    requires |edges| == |messages|
  {
    if messages == [] then a
    else
      var n := |messages| - 1;
      Taken(AllTaken(a, messages[..n], edges[..n]), messages[n], edges[n])
  }

  // ---- What is published ----------------------------------------------------------

  /** Every published epoch is whole, and no edge is labelled by two of them. */
  ghost predicate LabelledOnce(history: seq<Publication>) {
    && (forall i :: 0 <= i < |history| ==> Complete(history[i].epoch))
    && (forall i :: 0 <= i < |history| && history[i].epoch.pps.Some? ==>
          history[i].epoch.pps.value == Wrap32(history[i].edge))
    && (forall i, j :: 0 <= i < j < |history| && history[i].epoch.pps.Some? && history[j].epoch.pps.Some? ==>
          history[i].edge < history[j].edge)
  }

  ghost predicate Edged(a: Assembly) {
    && LabelledOnce(a.history) && a.labelledEdge <= a.latestEdge
    && (forall i :: 0 <= i < |a.history| && a.history[i].epoch.pps.Some? ==>
          a.lastLabelled.Some? && a.history[i].edge <= a.labelledEdge)
    && (a.lastLabelled.Some? ==>
          && a.lastLabelled.value == Wrap32(a.labelledEdge)
          && exists i :: 0 <= i < |a.history| && a.history[i].epoch.pps.Some? && a.history[i].edge == a.labelledEdge)
  }

  predicate Whole(a: Assembly) {
    && (a.active ==> OneEpoch(a.building) && !(a.building.status.Some? && a.building.timeUtc.Some?))
    && (a.published.Some? ==> Complete(a.published.value))
  }

  /** The PPS count never goes back, and comes round once in 2^32 edges at most. */
  predicate Onward(a: Assembly, m: Message, edge: nat) {
    Timed(m) ==>
      && m.pps.sequence == Wrap32(edge) && a.latestEdge <= edge
      && (a.lastLabelled.Some? ==> edge - a.labelledEdge < U32)
  }

  lemma TakenWhole(a: Assembly, m: Message, edge: nat)
    requires Whole(a)
    ensures Whole(Taken(a, m, edge))
  {
    hide DeriveTime, Associates;
  }

  lemma PublishedEdged(a: Assembly, whole: Snapshot, nowMs: u32, pps: PpsReference, edge: nat)
    requires Edged(a) && whole.status.Some? && whole.timeUtc.Some? && OneEpoch(whole)
    requires pps.sequence == Wrap32(edge) && a.latestEdge <= edge
    requires a.lastLabelled.Some? ==> edge - a.labelledEdge < U32
    ensures Edged(Published(a, whole, nowMs, pps, edge))
  {
    hide DeriveTime;
    var b := Published(a, whole, nowMs, pps, edge);
    assert b.history[|a.history|].edge == edge;
    if !Associates(a, nowMs, pps) && a.lastLabelled.Some? {
      var i :| 0 <= i < |a.history| && a.history[i].epoch.pps.Some? && a.history[i].edge == a.labelledEdge;
      assert b.history[i] == a.history[i];
    }
  }

  /** The latest edge is taken as an epoch's own exactly if it was seen valid less
      than 950 ms before, and no epoch published has been labelled with it. */
  lemma EdgeIsOwn(a: Assembly, m: Message, edge: nat, age: u32)
    requires Edged(a) && Timed(m) && Onward(a, m, edge) && m.nowMs == Wrap32(m.pps.observedMs + age)
    requires |Taken(a, m, edge).history| > |a.history|
    ensures var b := Taken(a, m, edge);
      && b.published.Some? && b.history == a.history + [Publication(b.published.value, edge)]
      && b.published.value.pps
         == (if && m.pps.valid && age < 950
                && forall i :: 0 <= i < |a.history| && a.history[i].epoch.pps.Some? ==> a.history[i].edge != edge
             then Some(m.pps.sequence) else None)
  {
    hide DeriveTime, LabelledOnce;
    AgeIs(m.pps.observedMs, age);
    if a.lastLabelled.Some? {
      SameEdge(a.labelledEdge, edge);
    }
    hide Wrap32;
  }

  lemma AgeIs(observedMs: u32, age: u32)
    ensures Wrap32(Wrap32(observedMs + age) - observedMs) == age
  {
  }

  lemma SameEdge(before: nat, edge: nat)
    requires before <= edge < before + U32
    ensures Wrap32(before) == Wrap32(edge) <==> before == edge
  {
  }

  /** Whatever an epoch is sent, it has: the one published, or the one under
      construction. Once published, its required parts stay what they were, and its
      end is noted; the rest is replaced by what comes later. */
  lemma PartJoins(a: Assembly, m: Message, edge: nat)
    ensures var b, week := Taken(a, m, edge), Week(m);
      var has := if IsPublished(b, week) then b.published.value else b.building;
      && (!m.EndMessage? ==> IsPublished(b, week) || IsBuilding(b, week))
      && (m.ClockMessage? ==> has.clock == Some(m.clock)) && (m.PositionMessage? ==> has.position == Some(m.position))
      && (m.StatusMessage? && !IsPublished(a, week) ==> has.status == Some(m.status))
      && (m.TimeMessage? && !IsPublished(a, week) ==> has.timeUtc == Some(m.time))
      && (IsPublished(a, week) ==>
            && IsPublished(b, week) && b.history == a.history && b.building == a.building
            && has.status == a.published.value.status && has.timeUtc == a.published.value.timeUtc
            && has.time == a.published.value.time && has.pps == a.published.value.pps
            && has.ended == (m.EndMessage? || a.published.value.ended))
      && (m.EndMessage? && !IsPublished(a, week) ==> !IsBuilding(b, week) && b.published == a.published && b.history == a.history)
  {
    hide DeriveTime, Associates;
  }

  lemma TakenEdged(a: Assembly, m: Message, edge: nat)
    requires Whole(a) && Edged(a) && Onward(a, m, edge)
    ensures Edged(Taken(a, m, edge))
  {
    hide DeriveTime, Published, LabelledOnce;
    var begun := Begun(a, Week(m));
    if !IsPublished(a, Week(m)) && m.StatusMessage? && begun.timeUtc.Some? {
      PublishedEdged(a, begun.(status := Some(m.status)), m.nowMs, m.pps, edge);
    } else if !IsPublished(a, Week(m)) && m.TimeMessage? && begun.status.Some? {
      PublishedEdged(a, begun.(timeUtc := Some(m.time)), m.nowMs, m.pps, edge);
    }
  }

  /** Every part was taken from a message. */
  ghost predicate From(s: Snapshot, messages: seq<Message>) {
    && (s.status.Some? ==> exists m :: m in messages && m.StatusMessage? && m.status == s.status.value)
    && (s.timeUtc.Some? ==> exists m :: m in messages && m.TimeMessage? && m.time == s.timeUtc.value)
    && (s.clock.Some? ==> exists m :: m in messages && m.ClockMessage? && m.clock == s.clock.value)
    && (s.position.Some? ==> exists m :: m in messages && m.PositionMessage? && m.position == s.position.value)
  }

  ghost predicate AllFrom(a: Assembly, messages: seq<Message>) {
    && (a.active ==> From(a.building, messages)) && (a.published.Some? ==> From(a.published.value, messages))
    && forall i :: 0 <= i < |a.history| ==> From(a.history[i].epoch, messages)
  }

  lemma FromMore(s: Snapshot, messages: seq<Message>, m: Message)
    requires From(s, messages)
    ensures From(s, messages + [m])
  {
  }

  lemma TakenFrom(a: Assembly, m: Message, edge: nat, messages: seq<Message>)
    requires AllFrom(a, messages)
    ensures AllFrom(Taken(a, m, edge), messages + [m])
  {
    hide DeriveTime, Associates, From;
    EveryFromMore(a, messages, m);
    var s := if IsPublished(a, Week(m)) then a.published.value else Begun(a, Week(m));
    FreshFrom(Week(m), messages + [m]);
    PartFrom(s, messages + [m], m);
  }

  lemma FreshFrom(timeOfWeek: u32, messages: seq<Message>)
    ensures From(Fresh(timeOfWeek), messages)
  {
  }

  lemma EveryFromMore(a: Assembly, messages: seq<Message>, m: Message)
    requires AllFrom(a, messages)
    ensures AllFrom(a, messages + [m])
  {
    FromMoreOf(messages, m);
    hide From;
  }

  lemma FromMoreOf(messages: seq<Message>, m: Message)
    ensures forall s :: From(s, messages) ==> From(s, messages + [m])
  {
    forall s | From(s, messages)
      ensures From(s, messages + [m])
    {
      FromMore(s, messages, m);
    }
  }

  // A snapshot with what a message brings, whatever is derived for it.
  lemma PartFrom(s: Snapshot, messages: seq<Message>, m: Message)
    requires From(s, messages) && m in messages
    ensures m.StatusMessage? ==> forall time, pps ::
              From(s.(status := Some(m.status), time := time, pps := pps), messages)
    ensures m.TimeMessage? ==> forall time, pps ::
              From(s.(timeUtc := Some(m.time), time := time, pps := pps), messages)
    ensures m.ClockMessage? ==> From(s.(clock := Some(m.clock)), messages)
    ensures m.PositionMessage? ==> From(s.(position := Some(m.position)), messages)
    ensures From(s.(ended := true), messages)
  {
  }

  // ---- A completed pair is published ------------------------------------------------

  /** A message that leaves the pair being collected as it is: of the epoch
      published before, or of this one but not of the pair. */
  predicate Aside(a: Assembly, m: Message, week: u32) {
    IsPublished(a, Week(m)) || (Week(m) == week && (m.ClockMessage? || m.PositionMessage?))
  }

  /** From a to b, the first required part of an epoch has been taken in and nothing
      published. */
  predicate Collected(a: Assembly, b: Assembly, first: Message, week: u32) {
    && IsBuilding(b, week) && PublishedWeek(b) == PublishedWeek(a) != Some(week) && b.history == a.history
    && (first.StatusMessage? ==> b.building.status == Some(first.status))
    && (first.TimeMessage? ==> b.building.timeUtc == Some(first.time))
  }

  lemma FirstCollected(a: Assembly, first: Message, edge: nat, week: u32)
    requires Timed(first) && Week(first) == week && !IsPublished(a, week)
    requires IsBuilding(a, week) ==> if first.StatusMessage? then a.building.timeUtc.None? else a.building.status.None?
    ensures Collected(a, Taken(a, first, edge), first, week)
  {
  }

  lemma CollectedKept(a: Assembly, b: Assembly, first: Message, m: Message, edge: nat, week: u32)
    requires Collected(a, b, first, week) && Aside(a, m, week)
    ensures Collected(a, Taken(b, m, edge), first, week)
  {
  }

  lemma {:induction false} PairCollected(a: Assembly, first: Message, between: seq<Message>, edges: seq<nat>, week: u32)
    requires Timed(first) && Week(first) == week && !IsPublished(a, week) && |edges| == 1 + |between|
    requires IsBuilding(a, week) ==> if first.StatusMessage? then a.building.timeUtc.None? else a.building.status.None?
    requires forall i :: 0 <= i < |between| ==> Aside(a, between[i], week)
    ensures Collected(a, AllTaken(a, [first] + between, edges), first, week)
  {
    hide Collected, Taken, IsBuilding, IsPublished, Aside, Timed, Week;
    var all, n := [first] + between, |between|;
    if n == 0 {
      FirstCollected(a, first, edges[0], week);
      assert all == [] + [first] && edges == [] + [edges[0]];
      TakenLast(a, [], [], first, edges[0]);
    } else {
      assert all[..n] == [first] + between[..n - 1];
      PairCollected(a, first, between[..n - 1], edges[..n], week);
      CollectedKept(a, AllTaken(a, all[..n], edges[..n]), first, between[n - 1], edges[n], week);
      TakenLast(a, all[..n], edges[..n], between[n - 1], edges[n]);
      assert all == all[..n] + [between[n - 1]] && edges == edges[..n] + [edges[n]];
      hide AllTaken;
    }
  }

  lemma TakenLast(a: Assembly, messages: seq<Message>, edges: seq<nat>, m: Message, edge: nat)
    requires |edges| == |messages|
    ensures AllTaken(a, messages + [m], edges + [edge]) == Taken(AllTaken(a, messages, edges), m, edge)
  {
    assert (messages + [m])[..|messages|] == messages && (edges + [edge])[..|edges|] == edges;
  }

  /** The two required parts of an epoch, in either order. */
  predicate Pair(first: Message, last: Message, week: u32) {
    && Timed(first) && Timed(last) && first.StatusMessage? != last.StatusMessage?
    && Week(first) == Week(last) == week
  }

  /** Once both required parts of an epoch have come in, in either order and with
      anything of the last epoch or the rest of this one between, it is published,
      with them as its parts. */
  lemma PairPublished(a: Assembly, first: Message, between: seq<Message>, last: Message, edges: seq<nat>, edge: nat, week: u32)
    requires Pair(first, last, week) && !IsPublished(a, week) && |edges| == 1 + |between|
    requires IsBuilding(a, week) ==> if first.StatusMessage? then a.building.timeUtc.None? else a.building.status.None?
    requires forall i :: 0 <= i < |between| ==> Aside(a, between[i], week)
    ensures var b := AllTaken(a, [first] + between + [last], edges + [edge]);
      var status, time := if first.StatusMessage? then first.status else last.status, if first.StatusMessage? then last.time else first.time;
      && IsPublished(b, week) && b.published.value.status == Some(status) && b.published.value.timeUtc == Some(time)
      && b.published.value.time == DeriveTime(status, time)
      && b.history == a.history + [Publication(b.published.value, edge)]
  {
    PairCollected(a, first, between, edges, week);
    TakenLast(a, [first] + between, edges, last, edge);
    hide AllTaken, DeriveTime, Associates;
  }

  // ---- The assembler ------------------------------------------------------------------

  class Assembler {
    var building: Snapshot
    var active: bool
    var published: Option<Snapshot>
    var lastLabelled: Option<u32>
    ghost var history: seq<Publication>
    // The edge last labelled, and the latest seen.
    ghost var labelledEdge: nat
    ghost var latestEdge: nat

    ghost function Now(): Assembly
      reads this
    {
      Assembly(building, active, published, lastLabelled, history, labelledEdge, latestEdge)
    }

    constructor ()
      ensures Now() == NOTHING
    {
      building, active, published, lastLabelled := Fresh(0), false, None, None;
      history, labelledEdge, latestEdge := [], 0, 0;
    }

    /** is_published_epoch() */
    predicate Has(timeOfWeek: u32): (r: bool)
      reads this
      ensures r == IsPublished(Now(), timeOfWeek)
    {
      published.Some? && published.value.timeOfWeek == timeOfWeek
    }

    /** building_epoch() */
    method Building(timeOfWeek: u32)
      modifies this`building, this`active
      ensures Now() == Built(old(Now()), Begun(old(Now()), timeOfWeek))
    {
      if active && building.timeOfWeek == timeOfWeek {
        return;
      }
      building := Fresh(timeOfWeek);
      active := true;
    }

    /** publish() */
    method Publish(nowMs: u32, pps: PpsReference, ghost edge: nat)
      requires building.status.Some? && building.timeUtc.Some?
      modifies this
      ensures Now() == Published(old(Now()), old(building), nowMs, pps, edge)
    {
      hide DeriveTime;
      building := building.(time := DeriveTime(building.status.value, building.timeUtc.value));
      var alreadyLabelled := lastLabelled == Some(pps.sequence);
      var recent := Wrap32(nowMs - pps.observedMs) < ASSOCIATION_WINDOW_MS;
      var associated := pps.valid && recent && !alreadyLabelled;
      building := building.(pps := if associated then Some(pps.sequence) else None);
      if associated {
        lastLabelled, labelledEdge := Some(pps.sequence), edge;
      }
      published, active, latestEdge := Some(building), false, edge;
      history := history + [Publication(building, edge)];
    }

    /** add_required_part() */
    method AddRequiredPart(nowMs: u32, pps: PpsReference, ghost edge: nat) returns (done: bool)
      requires active
      modifies this
      ensures Now() == Joined(old(Now()), old(building), nowMs, pps, edge)
      ensures done == (old(building).status.Some? && old(building).timeUtc.Some?)
    {
      hide Published;
      done := building.status.Some? && building.timeUtc.Some?;
      if done {
        Publish(nowMs, pps, edge);
      } else {
        latestEdge := edge;
      }
    }

    /** gnss_epoch_add_status(): published as soon as both parts are there, once. */
    method AddStatus(status: Status, nowMs: u32, pps: PpsReference, ghost edge: nat) returns (done: bool)
      modifies this
      ensures Now() == Taken(old(Now()), StatusMessage(status, nowMs, pps), edge)
      ensures done <==> !IsPublished(old(Now()), status.timeOfWeek) && Begun(old(Now()), status.timeOfWeek).timeUtc.Some?
      ensures done <==> |history| == |old(history)| + 1
    {
      hide DeriveTime, Wrap32;
      if Has(status.timeOfWeek) {
        latestEdge := edge;
        return false;
      }
      Building(status.timeOfWeek);
      building := building.(status := Some(status));
      done := AddRequiredPart(nowMs, pps, edge);
    }

    /** gnss_epoch_add_time_utc() */
    method AddTimeUtc(time: TimeUtc, nowMs: u32, pps: PpsReference, ghost edge: nat) returns (done: bool)
      modifies this
      ensures Now() == Taken(old(Now()), TimeMessage(time, nowMs, pps), edge)
      ensures done <==> !IsPublished(old(Now()), time.timeOfWeek) && Begun(old(Now()), time.timeOfWeek).status.Some?
      ensures done <==> |history| == |old(history)| + 1
    {
      hide DeriveTime, Wrap32;
      if Has(time.timeOfWeek) {
        latestEdge := edge;
        return false;
      }
      Building(time.timeOfWeek);
      building := building.(timeUtc := Some(time));
      done := AddRequiredPart(nowMs, pps, edge);
    }

    /** gnss_epoch_add_clock(): to the epoch it belongs to, published or not. */
    method AddClock(clock: Clock, ghost edge: nat)
      modifies this`building, this`active, this`published
      ensures Now() == Taken(old(Now()), ClockMessage(clock), edge)
    {
      if Has(clock.timeOfWeek) {
        published := Some(published.value.(clock := Some(clock)));
      } else {
        Building(clock.timeOfWeek);
        building := building.(clock := Some(clock));
      }
    }

    /** gnss_epoch_add_position() */
    method AddPosition(position: Position, ghost edge: nat)
      modifies this`building, this`active, this`published
      ensures Now() == Taken(old(Now()), PositionMessage(position), edge)
    {
      if Has(position.timeOfWeek) {
        published := Some(published.value.(position := Some(position)));
      } else {
        Building(position.timeOfWeek);
        building := building.(position := Some(position));
      }
    }

    /** gnss_epoch_end(): the published epoch is final; an incomplete one is dropped. */
    method End(timeOfWeek: u32, ghost edge: nat)
      modifies this`active, this`published
      ensures Now() == Taken(old(Now()), EndMessage(timeOfWeek), edge)
    {
      if Has(timeOfWeek) {
        published := Some(published.value.(ended := true));
      } else if active && building.timeOfWeek == timeOfWeek {
        active := false;
      }
    }
  }

  // ---- Whole runs ---------------------------------------------------------------------

  /** The edges, counted without wrapping, go on, and each timed message names the
      latest; the count of a run comes round once at most. */
  predicate Counted(messages: seq<Message>, edges: seq<nat>) {
    && |edges| == |messages|
    && (forall i, j :: 0 <= i <= j < |edges| ==> edges[i] <= edges[j] < edges[i] + U32)
    && (forall i :: 0 <= i < |messages| && Timed(messages[i]) ==> messages[i].pps.sequence == Wrap32(edges[i]))
  }

  /** Whatever messages come in, in whatever order: every epoch published is put
      together from messages of one time of week, and if the PPS count never goes
      back no edge is labelled by two. */
  lemma {:induction false} EachWhole(messages: seq<Message>, edges: seq<nat>)
    requires Counted(messages, edges)
    ensures var a := AllTaken(NOTHING, messages, edges);
      Whole(a) && Edged(a) && AllFrom(a, messages) && (messages != [] ==> a.latestEdge <= edges[|edges| - 1])
      && (messages == [] ==> a.latestEdge == 0 && a.lastLabelled == None)
      && (a.lastLabelled.Some? ==> edges[0] <= a.labelledEdge)
  {
    hide Whole, Taken, AllFrom, LabelledOnce;
    if messages == [] {
      NothingWhole();
    } else {
      var n := |messages| - 1;
      var a := AllTaken(NOTHING, messages[..n], edges[..n]);
      EachWhole(messages[..n], edges[..n]);
      TakenWhole(a, messages[n], edges[n]);
      TakenEdged(a, messages[n], edges[n]);
      TakenFrom(a, messages[n], edges[n], messages[..n]);
      LatestOf(a, messages[n], edges[n]);
      assert messages == messages[..n] + [messages[n]];
    }
  }

  lemma NothingWhole()
    ensures Whole(NOTHING) && AllFrom(NOTHING, []) && LabelledOnce([])
  {
  }

  lemma LatestOf(a: Assembly, m: Message, edge: nat)
    ensures Taken(a, m, edge).latestEdge == if Timed(m) then edge else a.latestEdge
    ensures var b := Taken(a, m, edge);
      b.lastLabelled.Some? ==> b.labelledEdge == edge || (b.labelledEdge == a.labelledEdge && a.lastLabelled.Some?)
  {
    hide DeriveTime, Associates;
  }

  method Take(a: Assembler, m: Message, ghost edge: nat)
    modifies a
    ensures a.Now() == Taken(old(a.Now()), m, edge)
  {
    hide Taken, Assembler.Now;
    match m {
      case StatusMessage(status, nowMs, pps) => var _ := a.AddStatus(status, nowMs, pps, edge);
      case TimeMessage(time, nowMs, pps) => var _ := a.AddTimeUtc(time, nowMs, pps, edge);
      case ClockMessage(clock) => a.AddClock(clock, edge);
      case PositionMessage(position) => a.AddPosition(position, edge);
      case EndMessage(timeOfWeek) => a.End(timeOfWeek, edge);
    }
  }

  /** A whole run of messages through the assembler. */
  method Assemble(messages: seq<Message>, ghost edges: seq<nat>) returns (a: Assembler, latest: Option<Snapshot>)
    requires Counted(messages, edges)
    ensures fresh(a) && a.Now() == AllTaken(NOTHING, messages, edges) && latest == a.published
    ensures LabelledOnce(a.history) && AllFrom(a.Now(), messages) && (latest.Some? ==> Complete(latest.value))
  {
    hide Taken, LabelledOnce, AllFrom, Complete;
    a := new Assembler();
    var done := 0;
    while done < |messages|
      invariant fresh(a) && done <= |messages| && a.Now() == AllTaken(NOTHING, messages[..done], edges[..done])
    {
      ghost var soFar := messages[..done];
      Take(a, messages[done], edges[done]);
      TakenLast(NOTHING, soFar, edges[..done], messages[done], edges[done]);
      assert messages[..done + 1] == soFar + [messages[done]] && edges[..done + 1] == edges[..done] + [edges[done]];
      done := done + 1;
    }
    assert messages[..done] == messages && edges[..done] == edges;
    EachWhole(messages, edges);
    latest := a.published;
  }
}
