// What a run of the poll-and-publish loop guarantees, stated on its events alone.
module Guarantees {
  import opened Wrappers
  import opened Model
  import opened Backoff
  import opened Picking
  import opened Publish
  import opened Scheduler
  import opened History

  predicate IsPoll(e: Event) {
    e.Polled? || e.PollError?
  }

  // A poll that went through and included a point of that identity.
  predicate PolledIdentity(e: Event, id: PointIdentity) {
    e.Polled? && exists p :: p in e.due && Identity(p) == id
  }

  lemma {:induction false} EligibleMembers(log: Log, at: nat, points: seq<PointConfig>, maxDelay: nat)
    ensures forall p :: p in EligiblePoints(log, at, points, maxDelay) <==>
      p in points && Eligible(log, at, p, maxDelay)
  {
    if points != [] {
      hide Eligible;
      EligibleMembers(log, at, points[..|points| - 1], maxDelay);
      assert points == points[..|points| - 1] + [points[|points| - 1]];
    }
  }

  // Exactly the points the preceding events allow are asked for.
  lemma PollsExactlyEligible(cfg: Config, log: Log, i: nat, p: PointConfig)
    requires Safe(cfg, log) && i < |log| && IsPoll(log[i])
    ensures p in log[i].due <==> p in cfg.points && Eligible(log[..i], log[i].at, p, cfg.backoffMax)
  {
    hide Eligible, EligiblePoints, Follows;
    assert GoodEvent(cfg, log[..i], log[i]);
    EligibleMembers(log[..i], log[i].at, cfg.points, cfg.backoffMax);
  }

  ghost function IsEligible(log: Log, at: nat, maxDelay: nat): PointConfig -> bool {
    (p: PointConfig) => Eligible(log, at, p, maxDelay)
  }

  ghost function ThePoint(): PointConfig -> PointConfig {
    (p: PointConfig) => p
  }

  lemma {:induction false} EligiblePicks(log: Log, at: nat, points: seq<PointConfig>, maxDelay: nat)
    ensures Picks(points, IsEligible(log, at, maxDelay), ThePoint(), EligiblePoints(log, at, points, maxDelay))
  {
    if points == [] {
      PicksNone(IsEligible(log, at, maxDelay), ThePoint());
    } else {
      var front, last := points[..|points| - 1], points[|points| - 1];
      EligiblePicks(log, at, front, maxDelay);
      PicksOneMore(front, last, IsEligible(log, at, maxDelay), ThePoint(), EligiblePoints(log, at, front, maxDelay));
      assert points == front + [last];
      hide Picks, Eligible;
    }
  }

  // They are asked for as often as configured, and in that order.
  lemma PollsInOrder(cfg: Config, log: Log, i: nat)
    requires Safe(cfg, log) && i < |log| && IsPoll(log[i])
    ensures Picks(cfg.points, IsEligible(log[..i], log[i].at, cfg.backoffMax), ThePoint(), log[i].due)
  {
    hide Eligible, EligiblePoints, Picks, Follows;
    assert GoodEvent(cfg, log[..i], log[i]);
    EligiblePicks(log[..i], log[i].at, cfg.points, cfg.backoffMax);
  }

  lemma {:induction false} PolledAtCovers(cfg: Config, log: Log, j: nat, i: nat, id: PointIdentity)
    requires Safe(cfg, log) && j < i <= |log| && PolledIdentity(log[j], id)
    ensures PolledAt(log[..i], id).Some? && log[j].at <= PolledAt(log[..i], id).value
  {
    var before, e := log[..i - 1], log[i - 1];
    assert log[..i][..i - 1] == before && log[..i][i - 1] == e;
    assert PolledAt(log[..i], id) == if PolledIdentity(e, id) then Some(e.at) else PolledAt(before, id);
    if j < i - 1 {
      hide Safe, PolledAt;
      PolledAtCovers(cfg, log, j, i - 1, id);
      if PolledIdentity(e, id) {
        var p :| p in e.due && Identity(p) == id;
        PollsExactlyEligible(cfg, log, i - 1, p);
      }
    }
  }

  // A point is asked for only when its whole interval has passed since every earlier poll that went
  // through with a point of the same identity, whichever point that was.
  lemma IntervalsKept(cfg: Config, at: nat, reply: Option<RefreshOutcome>, ticks: seq<Tick>,
                      j: nat, i: nat, p: PointConfig)
    requires ClockAscends(ticks)
    requires var log := Run(cfg, at, reply, ticks).events;
      j < i < |log| && IsPoll(log[i]) && p in log[i].due && PolledIdentity(log[j], Identity(p))
    ensures var log := Run(cfg, at, reply, ticks).events;
      log[i].at >= log[j].at + p.pollIntervalSecs * NANOS_PER_SEC
  {
    hide Run, Agree, Safe;
    var log := Run(cfg, at, reply, ticks).events;
    RunSafe(cfg, at, reply, ticks);
    PollsExactlyEligible(cfg, log, i, p);
    PolledAtCovers(cfg, log, j, i, Identity(p));
  }

  // No point of a device is asked for while the latest refresh verdict on it is "unresolved".
  lemma UnresolvedNotPolled(cfg: Config, at: nat, reply: Option<RefreshOutcome>, ticks: seq<Tick>,
                            i: nat, p: PointConfig)
    requires ClockAscends(ticks)
    requires var log := Run(cfg, at, reply, ticks).events;
      i < |log| && IsPoll(log[i]) && p in log[i].due && DeviceInstance(p).Some?
    ensures p.enabled && Verdict(Run(cfg, at, reply, ticks).events[..i], DeviceInstance(p).value) != Some(false)
  {
    hide Run, Agree, Safe;
    RunSafe(cfg, at, reply, ticks);
    PollsExactlyEligible(cfg, Run(cfg, at, reply, ticks).events, i, p);
  }

  // ---- Backoff ----

  predicate PollsDevice(e: Event, device: nat) {
    IsPoll(e) && device in DevicesOf(e.due)
  }

  // Events that leave the device's backoff alone.
  predicate Uninvolved(e: Event, device: nat) {
    && (e.Refreshed? ==> device !in e.refresh.resolved)
    && (e.Polled? ==> device !in DevicesOf(e.due))
  }

  lemma {:induction false} BackoffPersists(log: Log, i: nat, j: nat, device: nat)
    requires i <= j <= |log|
    requires forall k :: i <= k < j ==> Uninvolved(log[k], device)
    ensures FailedPolls(log[..j], device) == FailedPolls(log[..i], device)
    ensures FailedAt(log[..j], device) == FailedAt(log[..i], device)
    decreases j
  {
    if i < j {
      BackoffPersists(log, i, j - 1, device);
      assert log[..j][..j - 1] == log[..j - 1] && log[..j][j - 1] == log[j - 1];
    }
  }

  // After the k-th poll in a row in which all reads of a device failed, the device is next asked
  // for no sooner than min(10 * 2^(k-1), max) seconds later, unless a refresh resolves it first.
  lemma BackoffKept(cfg: Config, at: nat, reply: Option<RefreshOutcome>, ticks: seq<Tick>,
                    i: nat, j: nat, device: nat)
    requires ClockAscends(ticks)
    requires var log := Run(cfg, at, reply, ticks).events;
      && i < j < |log|
      && log[i].Polled? && PollsDevice(log[i], device) && AllFailed(log[i].outcome, device)
      && PollsDevice(log[j], device)
      && forall k :: i < k < j ==> Uninvolved(log[k], device)
    ensures var log := Run(cfg, at, reply, ticks).events;
      var k := FailedPolls(log[..i + 1], device);
      k == FailedPolls(log[..i], device) + 1 &&
      log[j].at >= log[i].at + DelayAfter(k, cfg.backoffMax)
  {
    hide Run, Agree, Safe;
    var log := Run(cfg, at, reply, ticks).events;
    RunSafe(cfg, at, reply, ticks);
    assert log[..i + 1][..i] == log[..i] && log[..i + 1][i] == log[i];
    BackoffPersists(log, i + 1, j, device);
    var p :| p in log[j].due && DeviceInstance(p) == Some(device);
    PollsExactlyEligible(cfg, log, j, p);
  }

  // ---- Nothing is skipped ----

  // The log once the last iteration's refreshes are in.
  ghost function AfterRefreshes(cfg: Config, before: Outcome, t: Tick): Outcome {
    var a := KeepalivePhase(cfg, before.state, t);
    var b := ResolvePhase(cfg, a.state, t, KeepaliveDue(cfg, before.state, t));
    Outcome(b.state, before.events + a.events + b.events)
  }

  lemma RefreshesAgree(cfg: Config, before: Outcome, clock: nat, t: Tick)
    requires Agree(cfg, before.state, before.events, clock) && Safe(cfg, before.events) && clock <= t.now
    ensures var r := AfterRefreshes(cfg, before, t);
      DuePoints(t.now, cfg.points, r.state) == EligiblePoints(r.events, t.now, cfg.points, cfg.backoffMax)
  {
    hide Agree, Safe, KeepalivePhase, ResolvePhase, EligiblePoints, DuePoints;
    var a := KeepalivePhase(cfg, before.state, t);
    var r := AfterRefreshes(cfg, before, t);
    KeepaliveAgree(cfg, before.state, before.events, clock, t);
    ResolveAgree(cfg, a.state, before.events + a.events, clock, t, KeepaliveDue(cfg, before.state, t));
    ClockAdvances(cfg, r.state, r.events, clock, t.now);
    DuePointsAreEligible(cfg, r.state, r.events, t.now, cfg.points);
  }

  lemma IterationSplits(cfg: Config, before: Outcome, t: Tick)
    ensures var r := AfterRefreshes(cfg, before, t);
      var due := DuePoints(t.now, cfg.points, r.state);
      var rest := PollPhase(cfg, r.state, t).events + HealthPhase(cfg, PollPhase(cfg, r.state, t).state, t).events;
      && before.events + Iterate(cfg, before.state, t).events == r.events + rest
      && |before.events| <= |r.events|
      && (if due == [] then forall m :: 0 <= m < |rest| ==> !IsPoll(rest[m])
          else rest != [] && IsPoll(rest[0]) && rest[0].at == t.now && rest[0].due == due)
  {
    hide DuePoints, RecordPoll, PublishBatch, KeepalivePhase, ResolvePhase, HealthDue;
  }

  // Every iteration asks for all points that are eligible once its refreshes are in: event k of the
  // run is that poll, or there is none because no point is eligible.
  lemma EveryIterationPolls(cfg: Config, at: nat, reply: Option<RefreshOutcome>, ticks: seq<Tick>)
    returns (k: nat)
    requires ClockAscends(ticks) && ticks != []
    ensures var log := Run(cfg, at, reply, ticks).events;
      var now := ticks[|ticks| - 1].now;
      && |Run(cfg, at, reply, ticks[..|ticks| - 1]).events| <= k <= |log|
      && var due := EligiblePoints(log[..k], now, cfg.points, cfg.backoffMax);
         if due == [] then forall m :: k <= m < |log| ==> !IsPoll(log[m])
         else k < |log| && IsPoll(log[k]) && log[k].at == now && log[k].due == due
  {
    var n := |ticks| - 1;
    var before := Run(cfg, at, reply, ticks[..n]);
    var log := Run(cfg, at, reply, ticks).events;
    assert log == before.events + Iterate(cfg, before.state, ticks[n]).events;
    hide Run, Iterate, AfterRefreshes, Agree, Safe, EligiblePoints, DuePoints, PollPhase, HealthPhase;
    var r := AfterRefreshes(cfg, before, ticks[n]);
    k := |r.events|;
    RunSafe(cfg, at, reply, ticks[..n]);
    RefreshesAgree(cfg, before, if n == 0 then 0 else ticks[n - 1].now, ticks[n]);
    IterationSplits(cfg, before, ticks[n]);
    assert log[..k] == r.events;
  }

  // ---- Health ----

  // Each health snapshot reports what happened since the one before, so that over the whole run
  // nothing is counted twice or dropped; what is not yet reported is in the current counters.
  lemma CountedOnce(cfg: Config, at: nat, reply: Option<RefreshOutcome>, ticks: seq<Tick>)
    requires ClockAscends(ticks)
    ensures var o := Run(cfg, at, reply, ticks);
      Reported(o.events).Plus(Counts(o.state.published, o.state.failedReads, o.state.failedPublishes)) == Totals(o.events)
  {
    hide Run, Totals, Reported, Safe;
    RunSafe(cfg, at, reply, ticks);
  }

  lemma SnapshotsExact(cfg: Config, at: nat, reply: Option<RefreshOutcome>, ticks: seq<Tick>, i: nat)
    requires ClockAscends(ticks)
    requires i < |Run(cfg, at, reply, ticks).events| && Run(cfg, at, reply, ticks).events[i].Health?
    ensures var log := Run(cfg, at, reply, ticks).events;
      && log[i].snapshot.stalePoints == |FailingIds(Reads(log[..i]))|
      && Reported(log[..i]).Plus(SnapshotCounts(log[i].snapshot)) == Totals(log[..i])
  {
    hide Run, Totals, Reported, Reads, FailingIds, Agree;
    RunSafe(cfg, at, reply, ticks);
    var log := Run(cfg, at, reply, ticks).events;
    assert GoodEvent(cfg, log[..i], log[i]);
    hide Follows;
  }

  // A point's status says what its latest read and its latest publish came to: whether the read
  // failed, with what error and how often in a row (up to the limit of the 32-bit counter), the value
  // and time of the latest sample, and the publish error, if any.
  lemma StatusExact(cfg: Config, at: nat, reply: Option<RefreshOutcome>, ticks: seq<Tick>, id: PointIdentity)
    requires ClockAscends(ticks)
    ensures var o := Run(cfg, at, reply, ticks);
      && (id in o.state.status <==> LatestRead(Reads(o.events), id).Some?)
      && (id in o.state.status ==>
            var status, read, sample := o.state.status[id], LatestRead(Reads(o.events), id).value, LatestSample(Reads(o.events), id);
            && (status.stale <==> read.Failure?)
            && status.lastError == (if read.Failure? then Some(read.error) else None)
            && status.consecutiveFailures == Saturated(FailuresInARow(Reads(o.events), id))
            && (if sample.None? then status.lastValue.None? && status.lastSampleMs.None?
                else sample.value.Sample? && status.lastValue == Some(sample.value.value) &&
                     status.lastSampleMs == Some(sample.value.ms))
            && status.lastPublishError ==
                 if LatestPublish(o.events, id).Some? then LatestPublish(o.events, id).value else None)
  {
    hide Run, Reads, FailuresInARow, LatestRead, LatestSample, LatestPublish, Safe;
    RunSafe(cfg, at, reply, ticks);
    assert PublishMatches(Run(cfg, at, reply, ticks).state.status, Run(cfg, at, reply, ticks).events, id);
  }

  // ---- What has to follow ----

  lemma RunFollows(cfg: Config, at: nat, reply: Option<RefreshOutcome>, ticks: seq<Tick>, i: nat)
    requires ClockAscends(ticks)
    requires i < |Run(cfg, at, reply, ticks).events|
    ensures var log := Run(cfg, at, reply, ticks).events;
      if i + 1 < |log| then Follows(cfg, log[..i + 1], log[i + 1]) else Settled(cfg, log)
  {
    hide Run, AgreeTables, Follows, Settled, GoodContent;
    var log := Run(cfg, at, reply, ticks).events;
    RunSafe(cfg, at, reply, ticks);
    if i + 1 < |log| {
      assert GoodEvent(cfg, log[..i + 1], log[i + 1]);
    }
  }

  // A refresh that makes devices of enabled points newly unresolved, or unresolved again, is followed
  // at once by the failures of exactly these points, as often as configured and in that order; any
  // other refresh is followed by no failures.
  lemma UnresolvedReported(cfg: Config, at: nat, reply: Option<RefreshOutcome>, ticks: seq<Tick>, i: nat)
    requires ClockAscends(ticks)
    requires var log := Run(cfg, at, reply, ticks).events; i < |log| && log[i].Refreshed?
    ensures var log := Run(cfg, at, reply, ticks).events;
      if exists p :: p in cfg.points && Affects(log[..i], log[i].refresh, p) then
        i + 1 < |log| && log[i + 1].Skipped? &&
        Picks(cfg.points, Affected(log[..i], log[i].refresh), SkipOf, log[i + 1].failures)
      else
        i + 1 < |log| ==> !log[i + 1].Skipped?
  {
    hide Run, Picks, Affects, Affected;
    var log := Run(cfg, at, reply, ticks).events;
    RunFollows(cfg, at, reply, ticks, i);
    var upTo := log[..i + 1];
    assert upTo[..i] == log[..i] && upTo[i] == log[i];
    if i + 1 == |log| {
      assert upTo == log;
    }
  }

  // The samples of a poll are published next, each exactly once and under its own topic: in their
  // order, or as envelopes device by device.
  lemma SamplesPublished(cfg: Config, at: nat, reply: Option<RefreshOutcome>, ticks: seq<Tick>, i: nat)
    requires ClockAscends(ticks)
    requires var log := Run(cfg, at, reply, ticks).events; i < |log| && log[i].Polled?
    ensures var log := Run(cfg, at, reply, ticks).events;
      if log[i].outcome.samples != [] then
        i + 1 < |log| && log[i + 1].Published? && PublishesAll(cfg, log[i].outcome.samples, log[i + 1].deliveries)
      else
        i + 1 < |log| ==> !log[i + 1].Published?
  {
    hide Run, PublishesAll;
    var log := Run(cfg, at, reply, ticks).events;
    RunFollows(cfg, at, reply, ticks, i);
    var upTo := log[..i + 1];
    assert upTo[i] == log[i];
    if i + 1 == |log| {
      assert upTo == log;
    }
  }

  // ---- Timing ----

  predicate AsksAll(e: Event) {
    e.Asked? && e.all
  }

  lemma {:induction false} LastAskedAllIs(log: Log, i: nat, j: nat)
    requires i < j <= |log| && AsksAll(log[i]) && forall k :: i < k < j ==> !AsksAll(log[k])
    ensures LastAskedAll(log[..j]) == log[i].at
  {
    assert log[..j][..j - 1] == log[..j - 1] && log[..j][j - 1] == log[j - 1];
    if i < j - 1 {
      LastAskedAllIs(log, i, j - 1);
    }
  }

  lemma {:induction false} LastAskedIs(log: Log, i: nat, j: nat)
    requires i < j <= |log| && log[i].Asked? && forall k :: i < k < j ==> !log[k].Asked?
    ensures LastAsked(log[..j]) == log[i].at
  {
    assert log[..j][..j - 1] == log[..j - 1] && log[..j][j - 1] == log[j - 1];
    if i < j - 1 {
      LastAskedIs(log, i, j - 1);
    }
  }

  lemma {:induction false} HealthSinceIs(cfg: Config, log: Log, i: nat, j: nat)
    requires i < j <= |log| && log[i].Health? && forall k :: i < k < j ==> !log[k].Health?
    ensures HealthSince(cfg, log[..j]) == log[i].done
  {
    assert log[..j][..j - 1] == log[..j - 1] && log[..j][j - 1] == log[j - 1];
    if i < j - 1 {
      HealthSinceIs(cfg, log, i, j - 1);
    }
  }

  // From one refresh of all devices to the next the keepalive interval passes; from any refresh to a
  // refresh of the unresolved devices, which are exactly those asked for, the re-resolution interval
  // does; from one health report to the next the health interval does.
  lemma IntervalsPass(cfg: Config, log: Log, i: nat, j: nat)
    requires Safe(cfg, log) && i < j < |log|
    ensures AsksAll(log[i]) && AsksAll(log[j]) && (forall k :: i < k < j ==> !AsksAll(log[k])) ==>
      Elapsed(log[j].at, log[i].at) >= cfg.keepaliveInterval && log[j].devices == RefreshTargets(cfg.points)
    ensures log[i].Asked? && log[j].Asked? && !log[j].all && (forall k :: i < k < j ==> !log[k].Asked?) ==>
      Elapsed(log[j].at, log[i].at) >= cfg.reresolveInterval && log[j].devices != {} &&
      forall d :: d in log[j].devices <==> Verdict(log[..j], d) == Some(false)
    ensures log[i].Health? && log[j].Health? && (forall k :: i < k < j ==> !log[k].Health?) ==>
      Elapsed(log[j].at, log[i].done) >= cfg.healthInterval
  {
    assert GoodEvent(cfg, log[..j], log[j]);
    assert log[..j] != [];
    hide Follows, Verdict, RefreshTargets, Safe, GoodPoll, GoodHealth, LastAsked, LastAskedAll, HealthSince;
    if AsksAll(log[i]) && forall k :: i < k < j ==> !AsksAll(log[k]) {
      LastAskedAllIs(log, i, j);
    }
    if log[i].Asked? && forall k :: i < k < j ==> !log[k].Asked? {
      LastAskedIs(log, i, j);
    }
    if log[i].Health? && forall k :: i < k < j ==> !log[k].Health? {
      HealthSinceIs(cfg, log, i, j);
    }
  }

  predicate AsksSome(e: Event) {
    e.Asked? && !e.all
  }

  // Neither a request to refresh nor a health report.
  ghost predicate Untimed(events: seq<Event>) {
    forall k :: 0 <= k < |events| ==> !events[k].Asked? && !events[k].Health?
  }

  lemma RefreshUntimed(cfg: Config, s: State, reply: Option<RefreshOutcome>)
    ensures var o := Refresh(cfg, s, reply); Untimed(o.events) && o.state.lastHealth == s.lastHealth
  {
    hide SkipFailures, RecordFailures, NewlyUnresolved, SetOf;
  }

  lemma PollUntimed(cfg: Config, s: State, t: Tick)
    ensures var o := PollPhase(cfg, s, t); Untimed(o.events) && o.state.lastHealth == s.lastHealth
  {
    hide DuePoints, AfterPoll, MarkPolled, RecordSamples, RecordFailures, Deliveries, WithTopics;
  }

  // What asking contributes to an iteration: at most one request, in front.
  lemma AskingShape(cfg: Config, s: State, t: Tick) returns (first: seq<Event>, rest: seq<Event>)
    ensures var a := KeepalivePhase(cfg, s, t);
      var b := ResolvePhase(cfg, a.state, t, KeepaliveDue(cfg, s, t));
      && a.events + b.events == first + rest && Untimed(rest) && b.state.lastHealth == s.lastHealth
      && first == (if KeepaliveDue(cfg, s, t) then [Asked(t.keepaliveAt, true, RefreshTargets(cfg.points))]
                   else if ResolveDue(cfg, s, t) then [Asked(t.resolveAt, false, s.unresolved)] else [])
  {
    hide Refresh, RefreshTargets;
    first, rest := [], [];
    if KeepaliveDue(cfg, s, t) {
      var asked := s.(lastRefresh := t.keepaliveAt, lastResolve := t.keepaliveAt);
      RefreshUntimed(cfg, asked, t.keepaliveReply);
      first, rest := [Asked(t.keepaliveAt, true, RefreshTargets(cfg.points))], Refresh(cfg, asked, t.keepaliveReply).events;
    } else if ResolveDue(cfg, s, t) {
      var asked := s.(lastResolve := t.resolveAt);
      RefreshUntimed(cfg, asked, t.resolveReply);
      first, rest := [Asked(t.resolveAt, false, s.unresolved)], Refresh(cfg, asked, t.resolveReply).events;
    }
  }

  // The events of an iteration: at most one request to refresh, in front, and at most one health
  // report, at the end, each exactly when it is due.
  ghost predicate Timely(events: seq<Event>, all: bool, some: bool, report: bool) {
    && (all <==> events != [] && AsksAll(events[0]))
    && (!all ==> (some <==> events != [] && AsksSome(events[0])))
    && (forall k :: 0 < k < |events| ==> !events[k].Asked?)
    && (report <==> events != [] && events[|events| - 1].Health?)
    && (forall k :: 0 <= k < |events| - 1 ==> !events[k].Health?)
  }

  lemma TimelyParts(first: seq<Event>, middle: seq<Event>, last: seq<Event>, all: bool, some: bool, report: bool)
    requires Untimed(middle)
    requires if all then |first| == 1 && AsksAll(first[0])
             else if some then |first| == 1 && AsksSome(first[0]) else first == []
    requires if report then |last| == 1 && last[0].Health? else last == []
    ensures Timely(first + middle + last, all, some, report)
  {
  }

  lemma IterateParts(cfg: Config, s: State, t: Tick)
    ensures var a := KeepalivePhase(cfg, s, t);
      var b := ResolvePhase(cfg, a.state, t, KeepaliveDue(cfg, s, t));
      var c := PollPhase(cfg, b.state, t);
      var d := HealthPhase(cfg, c.state, t);
      Iterate(cfg, s, t).events == a.events + b.events + (c.events + d.events)
  {
    hide KeepalivePhase, ResolvePhase, PollPhase, HealthPhase;
  }

  lemma HealthShape(cfg: Config, s: State, c: State, t: Tick)
    requires c.lastHealth == s.lastHealth
    ensures var events := HealthPhase(cfg, c, t).events;
      if HealthDue(cfg, s, t) then |events| == 1 && events[0].Health? else events == []
  {
    hide StaleIds;
  }

  lemma IterationTimely(cfg: Config, s: State, t: Tick)
    ensures Timely(Iterate(cfg, s, t).events, KeepaliveDue(cfg, s, t), ResolveDue(cfg, s, t), HealthDue(cfg, s, t))
  {
    hide *;
    var a := KeepalivePhase(cfg, s, t);
    var b := ResolvePhase(cfg, a.state, t, KeepaliveDue(cfg, s, t));
    var c := PollPhase(cfg, b.state, t);
    var d := HealthPhase(cfg, c.state, t);
    IterateParts(cfg, s, t);
    var first, rest := AskingShape(cfg, s, t);
    PollUntimed(cfg, b.state, t);
    HealthShape(cfg, s, c.state, t);
    UntimedJoins(rest, c.events);
    assert first + rest + (c.events + d.events) == first + (rest + c.events) + d.events;
    FirstShape(cfg, s, t, first);
    TimelyParts(first, rest + c.events, d.events, KeepaliveDue(cfg, s, t), ResolveDue(cfg, s, t), HealthDue(cfg, s, t));
  }

  lemma UntimedJoins(a: seq<Event>, b: seq<Event>)
    requires Untimed(a) && Untimed(b)
    ensures Untimed(a + b)
  {
  }

  lemma FirstShape(cfg: Config, s: State, t: Tick, first: seq<Event>)
    requires first == (if KeepaliveDue(cfg, s, t) then [Asked(t.keepaliveAt, true, RefreshTargets(cfg.points))]
                       else if ResolveDue(cfg, s, t) then [Asked(t.resolveAt, false, s.unresolved)] else [])
    ensures if KeepaliveDue(cfg, s, t) then |first| == 1 && AsksAll(first[0])
            else if ResolveDue(cfg, s, t) then |first| == 1 && AsksSome(first[0]) else first == []
  {
    hide KeepaliveDue, ResolveDue, RefreshTargets;
  }

  ghost predicate AnyUnresolved(log: Log) {
    exists d :: Verdict(log, d) == Some(false)
  }

  lemma DueByLog(cfg: Config, s: State, log: Log, t: Tick)
    requires AgreeRefresh(s.unresolved, log) && AgreeTimers(cfg, s, log)
    ensures KeepaliveDue(cfg, s, t) <==> Elapsed(t.keepaliveAt, LastAskedAll(log)) >= cfg.keepaliveInterval
    ensures ResolveDue(cfg, s, t) <==> AnyUnresolved(log) && Elapsed(t.resolveAt, LastAsked(log)) >= cfg.reresolveInterval
    ensures HealthDue(cfg, s, t) <==> Elapsed(t.healthAt, HealthSince(cfg, log)) >= cfg.healthInterval
  {
    hide Verdict, LastAsked, LastAskedAll, HealthSince;
    if AnyUnresolved(log) {
      var d :| Verdict(log, d) == Some(false);
      assert d in s.unresolved;
    }
    if d :| d in s.unresolved {
      assert Verdict(log, d) == Some(false);
    }
  }

  lemma RunAgrees(cfg: Config, at: nat, reply: Option<RefreshOutcome>, ticks: seq<Tick>)
    requires forall i, j :: 0 <= i < j < |ticks| ==> ticks[i].now <= ticks[j].now
    ensures var o := Run(cfg, at, reply, ticks);
      AgreeRefresh(o.state.unresolved, o.events) && AgreeTimers(cfg, o.state, o.events)
  {
    assert ClockAscends(ticks);
    hide Run, Safe, AgreeTables;
    RunSafe(cfg, at, reply, ticks);
    AgreedRefresh(cfg, Run(cfg, at, reply, ticks).state, Run(cfg, at, reply, ticks).events,
                  if ticks == [] then 0 else ticks[|ticks| - 1].now);
  }

  // Each in the first iteration that finds its interval passed: an iteration asks for all devices
  // exactly when the keepalive interval has passed since they were last asked for; otherwise for the
  // unresolved ones exactly when there are some and the re-resolution interval has passed since any
  // were; and it reports exactly when the health interval has passed since the latest report.
  lemma IterationsTimely(cfg: Config, at: nat, reply: Option<RefreshOutcome>, ticks: seq<Tick>)
    requires ClockAscends(ticks) && ticks != []
    ensures var t := ticks[|ticks| - 1];
      var before := Run(cfg, at, reply, ticks[..|ticks| - 1]).events;
      var log := Run(cfg, at, reply, ticks).events;
      && before <= log
      && Timely(log[|before|..],
                Elapsed(t.keepaliveAt, LastAskedAll(before)) >= cfg.keepaliveInterval,
                AnyUnresolved(before) && Elapsed(t.resolveAt, LastAsked(before)) >= cfg.reresolveInterval,
                Elapsed(t.healthAt, HealthSince(cfg, before)) >= cfg.healthInterval)
  {
    var n := |ticks| - 1;
    var t := ticks[n];
    RunSteps(cfg, at, reply, ticks);
    hide *;
    var o := Run(cfg, at, reply, ticks[..n]);
    var s, before := o.state, o.events;
    RunAgrees(cfg, at, reply, ticks[..n]);
    assert (before + Iterate(cfg, s, t).events)[|before|..] == Iterate(cfg, s, t).events;
    DueByLog(cfg, s, before, t);
    IterationTimely(cfg, s, t);
  }

  // The first iteration already reports, once the clock has run for the health interval.
  lemma FirstIterationReports(cfg: Config, at: nat, reply: Option<RefreshOutcome>, t: Tick)
    requires cfg.healthInterval <= at <= t.healthAt
    ensures var log := Run(cfg, at, reply, [t]).events; log != [] && log[|log| - 1].Health?
  {
    var ticks := [t];
    assert ticks[..0] == [];
    var start := Run(cfg, at, reply, []);
    assert start == Start(cfg, at, reply) && start.state.lastHealth == at - cfg.healthInterval;
    RunAgrees(cfg, at, reply, []);
    IterationsTimely(cfg, at, reply, ticks);
    assert Elapsed(t.healthAt, HealthSince(cfg, start.events)) >= cfg.healthInterval;
    var log := Run(cfg, at, reply, ticks).events;
    hide Run, Start, HealthSince, LastAsked, LastAskedAll, Verdict;
    assert log[|start.events|..] != [];
    assert log[|start.events|..][|log| - |start.events| - 1] == log[|log| - 1];
  }
}
