// What the events of a run say, and that the loop's state agrees with them.
module History {
  import opened Wrappers
  import opened Model
  import opened Backoff
  import opened Picking
  import opened Publish
  import opened Scheduler

  type Log = seq<Event>

  // ---- Readings of a log, one device or identity at a time ----

  // The latest word of a refresh on a device: Some(true) resolved, Some(false) unresolved.
  function Verdict(log: Log, device: nat): Option<bool> {
    if log == [] then None
    else
      var e := log[|log| - 1];
      var rest := log[..|log| - 1];
      if !e.Refreshed? then Verdict(rest, device)
      else if device in e.refresh.unresolved then Some(false)
      else if device in e.refresh.resolved then Some(true)
      else Verdict(rest, device)
  }

  // Polls in a row in which all reads of the device failed, since a sample of it arrived or a
  // refresh resolved it.
  ghost function FailedPolls(log: Log, device: nat): nat {
    if log == [] then 0
    else
      var e := log[|log| - 1];
      var rest := FailedPolls(log[..|log| - 1], device);
      match e
      case Refreshed(r) => if device in r.resolved then 0 else rest
      case Polled(_, due, o) =>
        if device !in DevicesOf(due) then rest
        else if Healthy(o, device) then 0
        else if Failed(o, device) then rest + 1
        else rest
      case _ => rest
  }

  // When the latest poll with all reads of the device failing took place.
  ghost function FailedAt(log: Log, device: nat): nat {
    if log == [] then 0
    else
      var e := log[|log| - 1];
      if e.Polled? && device in DevicesOf(e.due) && AllFailed(e.outcome, device) then e.at
      else FailedAt(log[..|log| - 1], device)
  }

  // When a point of that identity was last part of a poll that went through.
  function PolledAt(log: Log, id: PointIdentity): Option<nat> {
    if log == [] then None
    else
      var e := log[|log| - 1];
      if e.Polled? && exists p :: p in e.due && Identity(p) == id then Some(e.at)
      else PolledAt(log[..|log| - 1], id)
  }

  // A read of one identity: the value sampled and its time, or the error.
  datatype Read = Sample(id: PointIdentity, value: TelemetryValue, ms: int) | Failure(id: PointIdentity, error: string)

  function FailureReads(failures: seq<PointFailure>): seq<Read> {
    seq(|failures|, i requires 0 <= i < |failures| => Failure(Identity(failures[i].point), failures[i].error))
  }

  function SampleReads(samples: seq<PointSample>): seq<Read> {
    seq(|samples|, i requires 0 <= i < |samples| =>
      Sample(Identity(samples[i].point), samples[i].value, samples[i].timestampMs))
  }

  function ReadsOf(e: Event): seq<Read> {
    match e
    case Skipped(failures) => FailureReads(failures)
    case Polled(_, _, o) => FailureReads(o.failures) + SampleReads(o.samples)
    case _ => []
  }

  function Reads(log: Log): seq<Read> {
    if log == [] then [] else Reads(log[..|log| - 1]) + ReadsOf(log[|log| - 1])
  }

  function LatestRead(rs: seq<Read>, id: PointIdentity): Option<Read> {
    if rs == [] then None
    else if rs[|rs| - 1].id == id then Some(rs[|rs| - 1])
    else LatestRead(rs[..|rs| - 1], id)
  }

  function LatestSample(rs: seq<Read>, id: PointIdentity): Option<Read> {
    if rs == [] then None
    else if rs[|rs| - 1].id == id && rs[|rs| - 1].Sample? then Some(rs[|rs| - 1])
    else LatestSample(rs[..|rs| - 1], id)
  }

  // Whether the latest read of an identity failed.
  predicate Failing(rs: seq<Read>, id: PointIdentity) {
    LatestRead(rs, id).Some? && LatestRead(rs, id).value.Failure?
  }

  // Failures of an identity since its latest sample.
  function FailuresInARow(rs: seq<Read>, id: PointIdentity): nat {
    if rs == [] then 0
    else
      var rest := FailuresInARow(rs[..|rs| - 1], id);
      var r := rs[|rs| - 1];
      if r.id != id then rest else if r.Sample? then 0 else rest + 1
  }

  // The identities whose latest read failed.
  function FailingIds(rs: seq<Read>): set<PointIdentity> {
    set k | 0 <= k < |rs| && Failing(rs, rs[k].id) :: rs[k].id
  }

  // What became of the latest publish of a sample of an identity.
  function LatestPublish(log: Log, id: PointIdentity): Option<Option<string>> {
    if log == [] then None
    else
      var e := log[|log| - 1];
      if e.Published? && LatestDelivery(e.deliveries, id).Some? then LatestDelivery(e.deliveries, id)
      else LatestPublish(log[..|log| - 1], id)
  }

  // When the adapter was last asked to refresh all devices, and to refresh any.
  function LastAskedAll(log: Log): nat {
    if log == [] then 0
    else
      var e := log[|log| - 1];
      if e.Asked? && e.all then e.at else LastAskedAll(log[..|log| - 1])
  }

  function LastAsked(log: Log): nat {
    if log == [] then 0
    else if log[|log| - 1].Asked? then log[|log| - 1].at
    else LastAsked(log[..|log| - 1])
  }

  // The time from which the interval to the next health report counts.
  function HealthSince(cfg: Config, log: Log): nat {
    if log == [] then 0
    else
      var e := log[|log| - 1];
      if e.Health? then e.done
      else if |log| == 1 && e.Asked? then FirstHealth(cfg, e.at)
      else HealthSince(cfg, log[..|log| - 1])
  }

  datatype Counts = Counts(published: nat, failedReads: nat, failedPublishes: nat)
  {
    function Plus(other: Counts): Counts {
      Counts(published + other.published, failedReads + other.failedReads, failedPublishes + other.failedPublishes)
    }
  }

  function CountsOf(e: Event): Counts {
    match e
    case Polled(_, _, o) => Counts(0, |o.failures|, 0)
    case Published(ds) => Counts(CountOk(ds), 0, CountFailed(ds))
    case _ => Counts(0, 0, 0)
  }

  // Everything the run published, failed to read in a poll, and failed to publish.
  function Totals(log: Log): Counts {
    if log == [] then Counts(0, 0, 0) else Totals(log[..|log| - 1]).Plus(CountsOf(log[|log| - 1]))
  }

  function SnapshotCounts(s: HealthSnapshot): Counts {
    Counts(s.published, s.failedReads, s.failedPublishes)
  }

  // Everything the health snapshots reported.
  function Reported(log: Log): Counts {
    if log == [] then Counts(0, 0, 0)
    else
      var e := log[|log| - 1];
      var rest := Reported(log[..|log| - 1]);
      if e.Health? then rest.Plus(SnapshotCounts(e.snapshot)) else rest
  }

  // ---- What every event of a run has to satisfy, given the events before it ----

  // Whether a point may be polled, told from the log alone.
  ghost predicate Eligible(log: Log, at: nat, p: PointConfig, maxDelay: nat) {
    && p.enabled
    && (DeviceInstance(p).Some? ==>
          var d := DeviceInstance(p).value;
          && Verdict(log, d) != Some(false)
          && (FailedPolls(log, d) > 0 ==> at >= FailedAt(log, d) + DelayAfter(FailedPolls(log, d), maxDelay)))
    && (PolledAt(log, Identity(p)).Some? ==>
          at >= PolledAt(log, Identity(p)).value + p.pollIntervalSecs * NANOS_PER_SEC)
  }

  ghost function EligiblePoints(log: Log, at: nat, points: seq<PointConfig>, maxDelay: nat): seq<PointConfig> {
    if points == [] then []
    else
      var p := points[|points| - 1];
      EligiblePoints(log, at, points[..|points| - 1], maxDelay) +
      if Eligible(log, at, p, maxDelay) then [p] else []
  }

  ghost predicate GoodPoll(cfg: Config, log: Log, at: nat, due: seq<PointConfig>) {
    due != [] && due == EligiblePoints(log, at, cfg.points, cfg.backoffMax)
  }

  ghost predicate GoodHealth(log: Log, s: HealthSnapshot) {
    && Reported(log).Plus(SnapshotCounts(s)) == Totals(log)
    && s.stalePoints == |FailingIds(Reads(log))|
  }

  // The refresh r makes the device of an enabled point unresolved that was not so before it.
  ghost predicate Affects(before: Log, r: RefreshOutcome, p: PointConfig) {
    && p.enabled && DeviceInstance(p).Some?
    && var d := DeviceInstance(p).value;
       d in r.unresolved && (Verdict(before, d) != Some(false) || d in r.resolved)
  }

  ghost function Affected(before: Log, r: RefreshOutcome): PointConfig -> bool {
    (p: PointConfig) => Affects(before, r, p)
  }

  function SkipOf(p: PointConfig): PointFailure {
    PointFailure(p, SkipError(if DeviceInstance(p).Some? then DeviceInstance(p).value else 0))
  }

  // Whether the event at the end of the log calls for a failure event, or for a publish.
  ghost predicate OwesSkip(cfg: Config, log: Log) {
    && log != [] && log[|log| - 1].Refreshed?
    && exists p :: p in cfg.points && Affects(log[..|log| - 1], log[|log| - 1].refresh, p)
  }

  predicate OwesPublish(log: Log) {
    log != [] && log[|log| - 1].Polled? && log[|log| - 1].outcome.samples != []
  }

  ghost predicate Tagged(samples: seq<PointSample>, topicOf: PointConfig -> string, tagged: seq<PointSample>) {
    && |tagged| == |samples|
    && forall k :: 0 <= k < |samples| ==> tagged[k] == samples[k].(topic := topicOf(samples[k].point))
  }

  // The samples of a poll, each with its topic, each published once.
  ghost predicate PublishesAll(cfg: Config, samples: seq<PointSample>, ds: seq<Delivery>) {
    exists tagged :: Tagged(samples, cfg.topicOf, tagged) && Arranged(cfg.format, tagged, cfg.idOf, ds)
  }

  // A refresh that affects points is followed by the failures of exactly these, each as often as it
  // is configured, in that order; a poll that gave samples is followed by their publishing. Neither
  // happens otherwise.
  ghost predicate Follows(cfg: Config, log: Log, e: Event) {
    && (e.Skipped? <==> OwesSkip(cfg, log))
    && (e.Published? <==> OwesPublish(log))
    && (e.Skipped? && OwesSkip(cfg, log) ==>
          Picks(cfg.points, Affected(log[..|log| - 1], log[|log| - 1].refresh), SkipOf, e.failures))
    && (e.Published? && OwesPublish(log) ==> PublishesAll(cfg, log[|log| - 1].outcome.samples, e.deliveries))
  }

  // Devices are asked for at the start, all of them; then all of them once their interval has passed,
  // or exactly the unresolved ones once theirs has.
  ghost predicate GoodAsk(cfg: Config, log: Log, at: nat, all: bool, devices: set<nat>) {
    if log == [] then all && devices == RefreshTargets(cfg.points)
    else if all then
      Elapsed(at, LastAskedAll(log)) >= cfg.keepaliveInterval && devices == RefreshTargets(cfg.points)
    else
      && Elapsed(at, LastAsked(log)) >= cfg.reresolveInterval
      && devices != {} && forall d :: d in devices <==> Verdict(log, d) == Some(false)
  }

  ghost predicate GoodContent(cfg: Config, log: Log, e: Event) {
    match e
    case Asked(at, all, devices) => GoodAsk(cfg, log, at, all, devices)
    case Polled(at, due, _) => GoodPoll(cfg, log, at, due)
    case PollError(at, due) => GoodPoll(cfg, log, at, due)
    case Health(at, _, s) => GoodHealth(log, s) && Elapsed(at, HealthSince(cfg, log)) >= cfg.healthInterval
    case _ => true
  }

  ghost predicate GoodEvent(cfg: Config, log: Log, e: Event) {
    Follows(cfg, log, e) && GoodContent(cfg, log, e)
  }

  ghost predicate Safe(cfg: Config, log: Log) {
    forall i :: 0 <= i < |log| ==> GoodEvent(cfg, log[..i], log[i])
  }

  // ---- The state agrees with the log ----

  ghost predicate AgreeRefresh(unresolved: set<nat>, log: Log) {
    forall d :: d in unresolved <==> Verdict(log, d) == Some(false)
  }

  ghost function EntryOf(log: Log, device: nat, maxDelay: nat): Option<DeviceBackoff> {
    var k := FailedPolls(log, device);
    if k == 0 then None
    else Some(DeviceBackoff(DelayAfter(k, maxDelay), FailedAt(log, device) + DelayAfter(k, maxDelay)))
  }

  ghost predicate AgreeBackoff(backoffs: map<nat, DeviceBackoff>, log: Log, maxDelay: nat) {
    forall d :: Lookup(backoffs, d) == EntryOf(log, d, maxDelay)
  }

  function LookupPoll(lastPoll: map<PointIdentity, nat>, id: PointIdentity): Option<nat> {
    if id in lastPoll then Some(lastPoll[id]) else None
  }

  ghost predicate AgreePolls(lastPoll: map<PointIdentity, nat>, log: Log, clock: nat) {
    forall id :: LookupPoll(lastPoll, id) == PolledAt(log, id) && (id in lastPoll ==> lastPoll[id] <= clock)
  }

  function Saturated(n: nat): nat {
    if n < U32_LIMIT then n else U32_LIMIT - 1
  }

  predicate StatusMatches(status: PointStatus, rs: seq<Read>, id: PointIdentity) {
    && status.stale == Failing(rs, id)
    && status.consecutiveFailures == Saturated(FailuresInARow(rs, id))
    && status.lastError == (if Failing(rs, id) then Some(LatestRead(rs, id).value.error) else None)
    && (match LatestSample(rs, id)
        case None => status.lastValue == None && status.lastSampleMs == None
        case Some(r) => r.Sample? && status.lastValue == Some(r.value) && status.lastSampleMs == Some(r.ms))
  }

  ghost predicate AgreeStatus(table: StatusTable, rs: seq<Read>) {
    forall id ::
      (id in table <==> LatestRead(rs, id).Some?) && (id in table ==> StatusMatches(table[id], rs, id))
  }

  predicate PublishMatches(table: StatusTable, log: Log, id: PointIdentity) {
    && (LatestPublish(log, id).Some? ==> id in table)
    && StatusOf(table, id).lastPublishError ==
         if LatestPublish(log, id).Some? then LatestPublish(log, id).value else None
  }

  ghost predicate AgreePublish(table: StatusTable, log: Log) {
    forall id :: PublishMatches(table, log, id)
  }

  ghost predicate AgreeCounts(s: State, log: Log) {
    Reported(log).Plus(Counts(s.published, s.failedReads, s.failedPublishes)) == Totals(log)
  }

  predicate AgreeTimers(cfg: Config, s: State, log: Log) {
    log != [] && s.lastRefresh == LastAskedAll(log) && s.lastResolve == LastAsked(log) &&
    s.lastHealth == HealthSince(cfg, log)
  }

  ghost predicate AgreeTables(cfg: Config, s: State, log: Log, clock: nat) {
    && AgreeRefresh(s.unresolved, log)
    && AgreeBackoff(s.backoffs, log, cfg.backoffMax)
    && AgreePolls(s.lastPoll, log, clock)
    && AgreeStatus(s.status, Reads(log))
    && AgreePublish(s.status, log)
    && AgreeCounts(s, log)
    && AgreeTimers(cfg, s, log)
  }

  // The log calls for nothing that has not followed.
  ghost predicate Settled(cfg: Config, log: Log) {
    !OwesSkip(cfg, log) && !OwesPublish(log)
  }

  ghost predicate Agree(cfg: Config, s: State, log: Log, clock: nat) {
    AgreeTables(cfg, s, log, clock) && Settled(cfg, log)
  }

  // ---- Appending events ----

  lemma SafeAppend(cfg: Config, log: Log, e: Event)
    requires Safe(cfg, log) && GoodEvent(cfg, log, e)
    ensures Safe(cfg, log + [e])
  {
    hide GoodEvent;
    var next := log + [e];
    forall i | 0 <= i < |next|
      ensures GoodEvent(cfg, next[..i], next[i])
    {
      if i < |log| {
        assert next[..i] == log[..i] && next[i] == log[i];
      } else {
        assert next[..i] == log;
      }
    }
  }

  // Where nothing is called for, any event but a failure event or a publish may follow.
  lemma SafeGrows(cfg: Config, log: Log, e: Event)
    requires Safe(cfg, log) && Settled(cfg, log) && !e.Skipped? && !e.Published? && GoodContent(cfg, log, e)
    ensures Safe(cfg, log + [e])
  {
    hide Safe, OwesSkip, OwesPublish, GoodContent;
    SafeAppend(cfg, log, e);
  }

  lemma Snoc(log: Log, e: Event)
    ensures (log + [e])[..|log|] == log && (log + [e])[|log|] == e
  {
  }

  lemma {:induction false} UnreadIsBlank(rs: seq<Read>, id: PointIdentity)
    requires LatestRead(rs, id).None?
    ensures FailuresInARow(rs, id) == 0 && LatestSample(rs, id).None?
  {
    if rs != [] {
      UnreadIsBlank(rs[..|rs| - 1], id);
    }
  }

  lemma {:induction false} LatestSampleIsOne(rs: seq<Read>, id: PointIdentity)
    ensures LatestSample(rs, id).Some? ==> LatestSample(rs, id).value.Sample?
  {
    if rs != [] {
      LatestSampleIsOne(rs[..|rs| - 1], id);
    }
  }

  // What a read makes of the status of its identity.
  function AfterRead(status: PointStatus, r: Read): PointStatus {
    match r
    case Failure(_, error) => status.RecordReadFailure(error)
    case Sample(_, value, ms) =>
      status.(lastValue := Some(value), lastSampleMs := Some(ms), stale := false, consecutiveFailures := 0, lastError := None)
  }

  lemma ReadMatches(table: StatusTable, rs: seq<Read>, r: Read)
    requires AgreeStatus(table, rs)
    ensures LatestRead(rs + [r], r.id).Some? && StatusMatches(AfterRead(StatusOf(table, r.id), r), rs + [r], r.id)
  {
    assert (rs + [r])[..|rs|] == rs;
    LatestSampleIsOne(rs, r.id);
    if r.id !in table {
      UnreadIsBlank(rs, r.id);
    }
  }

  lemma OtherMatches(status: PointStatus, rs: seq<Read>, r: Read, id: PointIdentity)
    requires id != r.id
    ensures LatestRead(rs + [r], id) == LatestRead(rs, id)
    ensures StatusMatches(status, rs + [r], id) <==> StatusMatches(status, rs, id)
  {
    assert (rs + [r])[..|rs|] == rs;
  }

  lemma AgreeStatusRead(table: StatusTable, rs: seq<Read>, r: Read)
    requires AgreeStatus(table, rs)
    ensures AgreeStatus(table[r.id := AfterRead(StatusOf(table, r.id), r)], rs + [r])
  {
    var status := AfterRead(StatusOf(table, r.id), r);
    ReadMatches(table, rs, r);
    hide StatusMatches, LatestRead, AfterRead;
    forall id
      ensures var after := table[r.id := status];
        (id in after <==> LatestRead(rs + [r], id).Some?) && (id in after ==> StatusMatches(after[id], rs + [r], id))
    {
      if id != r.id {
        OtherMatches(StatusOf(table, id), rs, r, id);
      }
    }
  }

  lemma {:induction false} FailuresAgree(table: StatusTable, rs: seq<Read>, failures: seq<PointFailure>)
    requires AgreeStatus(table, rs)
    ensures AgreeStatus(RecordFailures(table, failures), rs + FailureReads(failures))
  {
    if failures == [] {
      assert rs + FailureReads(failures) == rs;
    } else {
      hide AgreeStatus;
      var n := |failures| - 1;
      FailuresAgree(table, rs, failures[..n]);
      var before := RecordFailures(table, failures[..n]);
      var r := Failure(Identity(failures[n].point), failures[n].error);
      AgreeStatusRead(before, rs + FailureReads(failures[..n]), r);
      assert rs + FailureReads(failures) == rs + FailureReads(failures[..n]) + [r];
    }
  }

  lemma {:induction false} SamplesAgree(table: StatusTable, rs: seq<Read>, samples: seq<PointSample>)
    requires AgreeStatus(table, rs)
    ensures AgreeStatus(RecordSamples(table, samples), rs + SampleReads(samples))
  {
    if samples == [] {
      assert rs + SampleReads(samples) == rs;
    } else {
      hide AgreeStatus;
      var n := |samples| - 1;
      SamplesAgree(table, rs, samples[..n]);
      var before := RecordSamples(table, samples[..n]);
      var r := Sample(Identity(samples[n].point), samples[n].value, samples[n].timestampMs);
      AgreeStatusRead(before, rs + SampleReads(samples[..n]), r);
      assert rs + SampleReads(samples) == rs + SampleReads(samples[..n]) + [r];
    }
  }

  lemma SettledAgree(table: StatusTable, rs: seq<Read>, ds: seq<Delivery>)
    requires AgreeStatus(table, rs)
    ensures AgreeStatus(SettleAll(table, ds), rs)
  {
    SettleKeepsReads(table, ds);
    hide SettleAll, LatestRead, LatestSample, FailuresInARow, Failing;
    forall id | id in table
      ensures StatusMatches(SettleAll(table, ds)[id], rs, id)
    {
      assert SettleAll(table, ds)[id].(lastPublishError := None) == table[id].(lastPublishError := None);
      assert StatusMatches(table[id], rs, id);
    }
  }

  lemma StaleIdsAgree(table: StatusTable, rs: seq<Read>)
    requires AgreeStatus(table, rs)
    ensures StaleIds(table) == FailingIds(rs)
  {
    forall id
      ensures id in StaleIds(table) <==> id in FailingIds(rs)
    {
      if Failing(rs, id) {
        ReadIsListed(rs, id);
      }
    }
  }

  lemma {:induction false} ReadIsListed(rs: seq<Read>, id: PointIdentity)
    requires LatestRead(rs, id).Some?
    ensures exists k: nat :: k < |rs| && rs[k].id == id
  {
    if rs[|rs| - 1].id != id {
      ReadIsListed(rs[..|rs| - 1], id);
    }
  }

  lemma TotalsAppend(log: Log, e: Event)
    ensures Totals(log + [e]) == Totals(log).Plus(CountsOf(e))
    ensures Reported(log + [e]) == if e.Health? then Reported(log).Plus(SnapshotCounts(e.snapshot)) else Reported(log)
    ensures Reads(log + [e]) == Reads(log) + ReadsOf(e)
  {
    Snoc(log, e);
  }

  // ---- Events that leave a table alone ----

  lemma RefreshIgnores(unresolved: set<nat>, log: Log, e: Event)
    requires AgreeRefresh(unresolved, log) && !e.Refreshed?
    ensures AgreeRefresh(unresolved, log + [e])
  {
    Snoc(log, e);
  }

  lemma BackoffIgnores(backoffs: map<nat, DeviceBackoff>, log: Log, e: Event, maxDelay: nat)
    requires AgreeBackoff(backoffs, log, maxDelay) && !e.Refreshed? && !e.Polled?
    ensures AgreeBackoff(backoffs, log + [e], maxDelay)
  {
    Snoc(log, e);
    forall d
      ensures EntryOf(log + [e], d, maxDelay) == EntryOf(log, d, maxDelay)
    {
    }
  }

  lemma PollsIgnore(lastPoll: map<PointIdentity, nat>, log: Log, clock: nat, e: Event)
    requires AgreePolls(lastPoll, log, clock) && !e.Polled?
    ensures AgreePolls(lastPoll, log + [e], clock)
  {
    Snoc(log, e);
  }

  lemma PublishIgnores(table: StatusTable, log: Log, e: Event)
    requires AgreePublish(table, log) && !e.Published?
    ensures AgreePublish(table, log + [e])
  {
    Snoc(log, e);
    forall id
      ensures PublishMatches(table, log + [e], id)
    {
      assert PublishMatches(table, log, id);
    }
  }

  lemma TimersIgnore(cfg: Config, s: State, log: Log, e: Event)
    requires AgreeTimers(cfg, s, log) && !e.Asked? && !e.Health?
    ensures AgreeTimers(cfg, s, log + [e])
  {
    Snoc(log, e);
  }

  lemma ReadsIgnore(table: StatusTable, log: Log, e: Event)
    requires AgreeStatus(table, Reads(log)) && !e.Skipped? && !e.Polled?
    ensures AgreeStatus(table, Reads(log + [e]))
  {
    hide AgreeStatus;
    Snoc(log, e);
    assert Reads(log) + [] == Reads(log);
  }

  // Recording reads changes no publish error and forgets no identity.
  lemma {:induction false} FailuresKeepPublish(table: StatusTable, failures: seq<PointFailure>, id: PointIdentity)
    ensures id in table ==> id in RecordFailures(table, failures)
    ensures StatusOf(RecordFailures(table, failures), id).lastPublishError == StatusOf(table, id).lastPublishError
  {
    if failures != [] {
      FailuresKeepPublish(table, failures[..|failures| - 1], id);
    }
  }

  lemma {:induction false} SamplesKeepPublish(table: StatusTable, samples: seq<PointSample>, id: PointIdentity)
    ensures id in table ==> id in RecordSamples(table, samples)
    ensures StatusOf(RecordSamples(table, samples), id).lastPublishError == StatusOf(table, id).lastPublishError
  {
    if samples != [] {
      SamplesKeepPublish(table, samples[..|samples| - 1], id);
    }
  }

  lemma ReadsKeepPublish(table: StatusTable, log: Log, failures: seq<PointFailure>, samples: seq<PointSample>)
    requires AgreePublish(table, log)
    ensures AgreePublish(RecordSamples(RecordFailures(table, failures), samples), log)
    ensures AgreePublish(RecordFailures(table, failures), log)
  {
    forall id
      ensures PublishMatches(RecordSamples(RecordFailures(table, failures), samples), log, id)
      ensures PublishMatches(RecordFailures(table, failures), log, id)
    {
      assert PublishMatches(table, log, id);
      FailuresKeepPublish(table, failures, id);
      SamplesKeepPublish(RecordFailures(table, failures), samples, id);
    }
  }

  // ---- Asking ----

  lemma AskedAgree(cfg: Config, s: State, log: Log, clock: nat, at: nat, all: bool, devices: set<nat>)
    requires Agree(cfg, s, log, clock) && Safe(cfg, log) && GoodAsk(cfg, log, at, all, devices)
    ensures var e := Asked(at, all, devices);
      Agree(cfg, s.(lastRefresh := if all then at else s.lastRefresh, lastResolve := at), log + [e], clock) &&
      Safe(cfg, log + [e])
  {
    hide AgreeStatus, AgreeBackoff, AgreeRefresh, AgreePolls, AgreePublish, Reads, Totals, Reported, Safe, GoodAsk;
    var e := Asked(at, all, devices);
    SafeGrows(cfg, log, e);
    TotalsAppend(log, e);
    RefreshIgnores(s.unresolved, log, e);
    BackoffIgnores(s.backoffs, log, e, cfg.backoffMax);
    PollsIgnore(s.lastPoll, log, clock, e);
    PublishIgnores(s.status, log, e);
    ReadsIgnore(s.status, log, e);
    Snoc(log, e);
  }

  // ---- Refreshing ----

  lemma RefreshedKeeps(unresolved: set<nat>, backoffs: map<nat, DeviceBackoff>, log: Log, r: RefreshOutcome, maxDelay: nat)
    requires AgreeRefresh(unresolved, log) && AgreeBackoff(backoffs, log, maxDelay)
    ensures AgreeRefresh(unresolved - SetOf(r.resolved) + SetOf(r.unresolved), log + [Refreshed(r)])
    ensures AgreeBackoff(backoffs - SetOf(r.resolved), log + [Refreshed(r)], maxDelay)
  {
    var e := Refreshed(r);
    Snoc(log, e);
    var after := backoffs - SetOf(r.resolved);
    forall d
      ensures Lookup(after, d) == EntryOf(log + [e], d, maxDelay)
    {
      assert Lookup(backoffs, d) == EntryOf(log, d, maxDelay);
    }
  }

  function AfterRefreshed(s: State, r: RefreshOutcome): State {
    s.(unresolved := s.unresolved - SetOf(r.resolved) + SetOf(r.unresolved),
       backoffs := s.backoffs - SetOf(r.resolved))
  }

  lemma RefreshedAgree(cfg: Config, s: State, log: Log, clock: nat, r: RefreshOutcome)
    requires Agree(cfg, s, log, clock) && Safe(cfg, log)
    ensures AgreeTables(cfg, AfterRefreshed(s, r), log + [Refreshed(r)], clock)
    ensures Safe(cfg, log + [Refreshed(r)])
  {
    hide AgreeStatus, AgreeBackoff, AgreeRefresh, AgreePolls, AgreePublish, AgreeTimers, Reads, Totals, Reported, Safe;
    var e := Refreshed(r);
    SafeGrows(cfg, log, e);
    TotalsAppend(log, e);
    PollsIgnore(s.lastPoll, log, clock, e);
    PublishIgnores(s.status, log, e);
    ReadsIgnore(s.status, log, e);
    RefreshedKeeps(s.unresolved, s.backoffs, log, r, cfg.backoffMax);
    TimersIgnore(cfg, s, log, e);
    assert AgreeTimers(cfg, AfterRefreshed(s, r), log + [e]) by {
      SameTimers(cfg, s, AfterRefreshed(s, r), log + [e]);
    }
  }

  lemma SameTimers(cfg: Config, s: State, t: State, log: Log)
    requires AgreeTimers(cfg, s, log)
    requires s.lastRefresh == t.lastRefresh && s.lastResolve == t.lastResolve && s.lastHealth == t.lastHealth
    ensures AgreeTimers(cfg, t, log)
  {
  }

  // The points the loop finds newly unresolved are those the log says the refresh affects.
  lemma {:induction false} SkipsAffected(points: seq<PointConfig>, unresolved: set<nat>, log: Log, r: RefreshOutcome)
    requires AgreeRefresh(unresolved, log)
    ensures Picks(points, Affected(log, r), SkipOf, SkipFailures(points, NewlyUnresolved(unresolved, r)))
  {
    if points == [] {
      PicksNone(Affected(log, r), SkipOf);
    } else {
      var front, p := points[..|points| - 1], points[|points| - 1];
      SkipsAffected(front, unresolved, log, r);
      PicksOneMore(front, p, Affected(log, r), SkipOf, SkipFailures(front, NewlyUnresolved(unresolved, r)));
      assert points == front + [p];
      NewlyAffects(unresolved, log, r, p);
      hide Picks, Verdict, NewlyUnresolved, DeviceInstance, SkipError, Affects;
    }
  }

  lemma NewlyAffects(unresolved: set<nat>, log: Log, r: RefreshOutcome, p: PointConfig)
    requires AgreeRefresh(unresolved, log)
    ensures Affects(log, r, p) <==>
      p.enabled && DeviceInstance(p).Some? && DeviceInstance(p).value in NewlyUnresolved(unresolved, r)
  {
    hide Verdict, DeviceInstance;
  }

  lemma SkippedAgree(cfg: Config, s: State, log: Log, clock: nat, failures: seq<PointFailure>)
    requires AgreeTables(cfg, s, log, clock) && Safe(cfg, log)
    requires OwesSkip(cfg, log) && Picks(cfg.points, Affected(log[..|log| - 1], log[|log| - 1].refresh), SkipOf, failures)
    ensures Agree(cfg, s.(status := RecordFailures(s.status, failures)), log + [Skipped(failures)], clock)
    ensures Safe(cfg, log + [Skipped(failures)])
  {
    hide AgreeStatus, AgreeBackoff, AgreeRefresh, AgreePolls, AgreePublish, AgreeTimers, Reads, Totals, Reported, Safe, Picks;
    var e := Skipped(failures);
    SafeAppend(cfg, log, e);
    FailuresAgree(s.status, Reads(log), failures);
    ReadsKeepPublish(s.status, log, failures, []);
    PublishIgnores(RecordFailures(s.status, failures), log, e);
    TotalsAppend(log, e);
    RefreshIgnores(s.unresolved, log, e);
    BackoffIgnores(s.backoffs, log, e, cfg.backoffMax);
    PollsIgnore(s.lastPoll, log, clock, e);
    TimersIgnore(cfg, s, log, e);
    SameTimers(cfg, s, s.(status := RecordFailures(s.status, failures)), log + [e]);
  }

  lemma RefreshAgree(cfg: Config, s: State, log: Log, clock: nat, reply: Option<RefreshOutcome>)
    requires Agree(cfg, s, log, clock) && Safe(cfg, log)
    ensures var o := Refresh(cfg, s, reply); Agree(cfg, o.state, log + o.events, clock) && Safe(cfg, log + o.events)
  {
    hide AgreeTables, Safe, SkipFailures, Affected, Picks;
    if reply.None? {
      assert log + [] == log;
    } else {
      var r := reply.value;
      var failures := SkipFailures(cfg.points, NewlyUnresolved(s.unresolved, r));
      var after := log + [Refreshed(r)];
      RefreshedAgree(cfg, s, log, clock, r);
      Snoc(log, Refreshed(r));
      AgreedRefresh(cfg, s, log, clock);
      SkipsAffected(cfg.points, s.unresolved, log, r);
      OwesAffected(cfg, log, r, failures);
      if failures == [] {
        NoFailuresRecorded(s.status);
        assert after + [] == after;
      } else {
        SkippedAgree(cfg, AfterRefreshed(s, r), after, clock, failures);
      }
      assert after + SkippedEvents(failures) == log + ([Refreshed(r)] + SkippedEvents(failures));
    }
  }

  lemma AgreedRefresh(cfg: Config, s: State, log: Log, clock: nat)
    requires AgreeTables(cfg, s, log, clock)
    ensures AgreeRefresh(s.unresolved, log) && AgreeTimers(cfg, s, log)
  {
  }

  lemma OwesAffected(cfg: Config, log: Log, r: RefreshOutcome, failures: seq<PointFailure>)
    requires Picks(cfg.points, Affected(log, r), SkipOf, failures)
    ensures OwesSkip(cfg, log + [Refreshed(r)]) <==> failures != []
  {
    Snoc(log, Refreshed(r));
    PicksNothing(cfg.points, Affected(log, r), SkipOf, failures);
    hide Picks, Affects;
    assert forall p :: Affected(log, r)(p) == Affects(log, r, p);
  }

  lemma NoFailuresRecorded(table: StatusTable)
    ensures RecordFailures(table, []) == table
  {
  }

  // ---- Polling ----

  lemma SecsPassed(now: nat, since: nat, secs: nat)
    requires since <= now
    ensures AsSecs(Elapsed(now, since)) >= secs <==> now >= since + secs * NANOS_PER_SEC
  {
  }

  // The loop's own test for polling a point is the log's.
  lemma DueIsEligible(cfg: Config, s: State, log: Log, now: nat, p: PointConfig)
    requires Agree(cfg, s, log, now)
    ensures Due(p, now, s) <==> Eligible(log, now, p, cfg.backoffMax)
  {
    hide AgreeStatus, AgreeCounts;
    var id := Identity(p);
    assert LookupPoll(s.lastPoll, id) == PolledAt(log, id);
    if id in s.lastPoll {
      SecsPassed(now, s.lastPoll[id], p.pollIntervalSecs);
    }
    if DeviceInstance(p).Some? {
      var d := DeviceInstance(p).value;
      assert d in s.unresolved <==> Verdict(log, d) == Some(false);
      assert Lookup(s.backoffs, d) == EntryOf(log, d, cfg.backoffMax);
    }
  }

  lemma {:induction false} DuePointsAreEligible(cfg: Config, s: State, log: Log, now: nat, points: seq<PointConfig>)
    requires Agree(cfg, s, log, now)
    ensures DuePoints(now, points, s) == EligiblePoints(log, now, points, cfg.backoffMax)
  {
    if points != [] {
      hide Agree, Due, Eligible;
      DuePointsAreEligible(cfg, s, log, now, points[..|points| - 1]);
      DueIsEligible(cfg, s, log, now, points[|points| - 1]);
    }
  }

  lemma PolledEntry(entry: Option<DeviceBackoff>, log: Log, at: nat, due: seq<PointConfig>, o: PollOutcome,
                    d: nat, maxDelay: nat)
    requires entry == EntryOf(log, d, maxDelay)
    ensures EntryOf(log + [Polled(at, due, o)], d, maxDelay) ==
      if d in DevicesOf(due) then Next(entry, o, d, at, maxDelay) else entry
  {
    hide Healthy, Failed, DevicesOf, DelayAfter;
    Snoc(log, Polled(at, due, o));
    if FailedPolls(log, d) > 0 {
      DelayDoubles(FailedPolls(log, d), maxDelay);
    } else {
      FirstDelay(maxDelay);
    }
  }

  lemma FirstDelay(maxDelay: nat)
    ensures DelayAfter(1, maxDelay) == Min(DEVICE_BACKOFF_INITIAL, maxDelay)
  {
  }

  lemma PolledBackoffAgree(backoffs: map<nat, DeviceBackoff>, log: Log, at: nat, due: seq<PointConfig>,
                           o: PollOutcome, maxDelay: nat)
    requires AgreeBackoff(backoffs, log, maxDelay)
    ensures AgreeBackoff(AfterPoll(backoffs, DevicesOf(due), o, at, maxDelay), log + [Polled(at, due, o)], maxDelay)
  {
    hide EntryOf, Next, AfterPoll;
    var after := AfterPoll(backoffs, DevicesOf(due), o, at, maxDelay);
    forall d
      ensures Lookup(after, d) == EntryOf(log + [Polled(at, due, o)], d, maxDelay)
    {
      PolledEntry(Lookup(backoffs, d), log, at, due, o, d, maxDelay);
    }
  }

  lemma {:induction false} MarkedIdentities(lastPoll: map<PointIdentity, nat>, due: seq<PointConfig>, now: nat, id: PointIdentity)
    ensures LookupPoll(MarkPolled(lastPoll, due, now), id) ==
      if exists p :: p in due && Identity(p) == id then Some(now) else LookupPoll(lastPoll, id)
  {
    if due != [] {
      var front, last := due[..|due| - 1], due[|due| - 1];
      MarkedIdentities(lastPoll, front, now, id);
      assert due == front + [last];
    }
  }

  lemma PolledPollsAgree(lastPoll: map<PointIdentity, nat>, log: Log, clock: nat, at: nat,
                         due: seq<PointConfig>, o: PollOutcome)
    requires AgreePolls(lastPoll, log, clock) && clock <= at
    ensures AgreePolls(MarkPolled(lastPoll, due, at), log + [Polled(at, due, o)], at)
  {
    var e := Polled(at, due, o);
    var after := MarkPolled(lastPoll, due, at);
    Snoc(log, e);
    forall id
      ensures LookupPoll(after, id) == PolledAt(log + [e], id) && (id in after ==> after[id] <= at)
    {
      assert LookupPoll(lastPoll, id) == PolledAt(log, id);
      MarkedIdentities(lastPoll, due, at, id);
    }
  }

  lemma TopicsKeepReads(samples: seq<PointSample>, topicOf: PointConfig -> string)
    ensures SampleReads(WithTopics(samples, topicOf)) == SampleReads(samples)
  {
    hide Identity;
  }

  lemma PolledStatusAgree(table: StatusTable, log: Log, at: nat, due: seq<PointConfig>, o: PollOutcome,
                          topicOf: PointConfig -> string)
    requires AgreeStatus(table, Reads(log))
    ensures AgreeStatus(RecordSamples(RecordFailures(table, o.failures), WithTopics(o.samples, topicOf)),
                        Reads(log + [Polled(at, due, o)]))
  {
    var e := Polled(at, due, o);
    var samples := WithTopics(o.samples, topicOf);
    TotalsAppend(log, e);
    assert ReadsOf(e) == FailureReads(o.failures) + SampleReads(o.samples);
    hide *;
    FailuresAgree(table, Reads(log), o.failures);
    SamplesAgree(RecordFailures(table, o.failures), Reads(log) + FailureReads(o.failures), samples);
    TopicsKeepReads(o.samples, topicOf);
    assert Reads(log) + FailureReads(o.failures) + SampleReads(o.samples) ==
           Reads(log) + (FailureReads(o.failures) + SampleReads(o.samples));
  }

  lemma ClockAdvances(cfg: Config, s: State, log: Log, clock: nat, now: nat)
    requires Agree(cfg, s, log, clock) && clock <= now
    ensures Agree(cfg, s, log, now)
  {
    hide AgreeStatus, AgreeBackoff, AgreeRefresh, AgreeCounts, AgreePublish, AgreeTimers, Settled;
    forall id
      ensures LookupPoll(s.lastPoll, id) == PolledAt(log, id) && (id in s.lastPoll ==> s.lastPoll[id] <= now)
    {
    }
  }

  lemma RecordPollAgree(cfg: Config, s: State, log: Log, now: nat, due: seq<PointConfig>, o: PollOutcome)
    requires Agree(cfg, s, log, now) && Safe(cfg, log) && GoodPoll(cfg, log, now, due)
    ensures AgreeTables(cfg, RecordPoll(cfg, s, now, due, o), log + [Polled(now, due, o)], now)
    ensures Safe(cfg, log + [Polled(now, due, o)])
  {
    hide AgreeStatus, AgreeBackoff, AgreeRefresh, AgreePolls, AgreePublish, AgreeTimers, Reads, Totals, Reported,
      Safe, GoodPoll;
    var e := Polled(now, due, o);
    SafeGrows(cfg, log, e);
    TotalsAppend(log, e);
    RefreshIgnores(s.unresolved, log, e);
    PolledBackoffAgree(s.backoffs, log, now, due, o, cfg.backoffMax);
    PolledPollsAgree(s.lastPoll, log, now, now, due, o);
    PolledStatusAgree(s.status, log, now, due, o, cfg.topicOf);
    ReadsKeepPublish(s.status, log, o.failures, WithTopics(o.samples, cfg.topicOf));
    PublishIgnores(RecordPoll(cfg, s, now, due, o).status, log, e);
    TimersIgnore(cfg, s, log, e);
    SameTimers(cfg, s, RecordPoll(cfg, s, now, due, o), log + [e]);
  }

  lemma {:induction false} SamplesKnown(table: StatusTable, samples: seq<PointSample>, k: nat)
    requires k < |samples|
    ensures Identity(samples[k].point) in RecordSamples(table, samples)
  {
    var n := |samples| - 1;
    if k < n {
      SamplesKnown(table, samples[..n], k);
    }
  }

  ghost predicate AllKnown(table: StatusTable, ds: seq<Delivery>) {
    forall k :: 0 <= k < |ds| ==> Identity(ds[k].sample.point) in table
  }

  lemma DeliveriesKnown(cfg: Config, table: StatusTable, samples: seq<PointSample>, broker: Broker)
    ensures AllKnown(RecordSamples(table, samples), Deliveries(cfg.format, samples, cfg.idOf, broker))
  {
    var ds := Deliveries(cfg.format, samples, cfg.idOf, broker);
    BatchConserved(cfg.format, samples, cfg.idOf, broker);
    hide Deliveries, Identity, RecordSamples;
    forall k | 0 <= k < |ds|
      ensures Identity(ds[k].sample.point) in RecordSamples(table, samples)
    {
      assert SamplesOf(ds)[k] in multiset(SamplesOf(ds));
      assert ds[k].sample in samples;
      var j :| 0 <= j < |samples| && samples[j] == ds[k].sample;
      SamplesKnown(table, samples, j);
    }
  }

  lemma {:induction false} UndeliveredStays(table: StatusTable, ds: seq<Delivery>, id: PointIdentity)
    requires LatestDelivery(ds, id).Some? && AllKnown(table, ds)
    ensures id in table
  {
    if Identity(ds[|ds| - 1].sample.point) != id {
      UndeliveredStays(table, ds[..|ds| - 1], id);
    }
  }

  lemma PublishedMatches(table: StatusTable, log: Log, ds: seq<Delivery>)
    requires AgreePublish(table, log) && AllKnown(table, ds)
    ensures AgreePublish(SettleAll(table, ds), log + [Published(ds)])
  {
    var e := Published(ds);
    Snoc(log, e);
    SettleKeepsReads(table, ds);
    forall id
      ensures PublishMatches(SettleAll(table, ds), log + [e], id)
    {
      assert PublishMatches(table, log, id);
      if LatestDelivery(ds, id).Some? {
        UndeliveredStays(table, ds, id);
      }
      if id in table {
        SettleKeepsLatest(table, ds, id);
      }
    }
  }

  lemma TopicsTag(samples: seq<PointSample>, topicOf: PointConfig -> string)
    ensures Tagged(samples, topicOf, WithTopics(samples, topicOf))
  {
  }

  lemma PublishFollows(cfg: Config, log: Log, broker: Broker)
    requires OwesPublish(log)
    ensures var samples := log[|log| - 1].outcome.samples;
      var ds := Deliveries(cfg.format, WithTopics(samples, cfg.topicOf), cfg.idOf, broker);
      GoodEvent(cfg, log, Published(ds))
  {
    var samples := log[|log| - 1].outcome.samples;
    var tagged := WithTopics(samples, cfg.topicOf);
    TopicsTag(samples, cfg.topicOf);
    DeliveriesDelivered(cfg.format, tagged, cfg.idOf, broker);
    DeliveredIsArranged(cfg.format, tagged, cfg.idOf, broker, Deliveries(cfg.format, tagged, cfg.idOf, broker));
    hide Tagged, Arranged, Deliveries, WithTopics;
  }

  lemma PublishedAgree(cfg: Config, s: State, log: Log, clock: nat, ds: seq<Delivery>)
    requires AgreeTables(cfg, s, log, clock) && Safe(cfg, log)
    requires GoodEvent(cfg, log, Published(ds)) && AllKnown(s.status, ds)
    ensures Agree(cfg, s.(status := SettleAll(s.status, ds), published := s.published + CountOk(ds),
                          failedPublishes := s.failedPublishes + CountFailed(ds)),
                  log + [Published(ds)], clock)
    ensures Safe(cfg, log + [Published(ds)])
  {
    hide AgreeStatus, AgreeBackoff, AgreeRefresh, AgreePolls, AgreePublish, AgreeTimers, Reads, Totals, Reported,
      Safe, GoodEvent, AllKnown;
    var e := Published(ds);
    var after := s.(status := SettleAll(s.status, ds), published := s.published + CountOk(ds),
                    failedPublishes := s.failedPublishes + CountFailed(ds));
    SafeAppend(cfg, log, e);
    TotalsAppend(log, e);
    SettledAgree(s.status, Reads(log), ds);
    ReadsIgnore(SettleAll(s.status, ds), log, e);
    PublishedMatches(s.status, log, ds);
    RefreshIgnores(s.unresolved, log, e);
    BackoffIgnores(s.backoffs, log, e, cfg.backoffMax);
    PollsIgnore(s.lastPoll, log, clock, e);
    TimersIgnore(cfg, s, log, e);
    SameTimers(cfg, s, after, log + [e]);
  }

  lemma BatchIs(cfg: Config, s: State, samples: seq<PointSample>, broker: Broker)
    requires samples != []
    ensures var ds := Deliveries(cfg.format, samples, cfg.idOf, broker);
      PublishBatch(cfg, s, samples, broker) ==
      Outcome(s.(status := SettleAll(s.status, ds), published := s.published + CountOk(ds),
                 failedPublishes := s.failedPublishes + CountFailed(ds)),
              [Published(ds)])
  {
  }

  lemma PublishBatchAgree(cfg: Config, s: State, log: Log, now: nat, table: StatusTable, samples: seq<PointSample>, broker: Broker)
    requires AgreeTables(cfg, s, log, now) && Safe(cfg, log) && OwesPublish(log) && samples != []
    requires samples == WithTopics(log[|log| - 1].outcome.samples, cfg.topicOf) && s.status == RecordSamples(table, samples)
    ensures var batch := PublishBatch(cfg, s, samples, broker);
      Agree(cfg, batch.state, log + batch.events, now) && Safe(cfg, log + batch.events)
  {
    hide *;
    BatchIs(cfg, s, samples, broker);
    PublishFollows(cfg, log, broker);
    DeliveriesKnown(cfg, table, samples, broker);
    PublishedAgree(cfg, s, log, now, Deliveries(cfg.format, samples, cfg.idOf, broker));
  }

  // A poll that went through, with the publishing it calls for.
  lemma PolledAgree(cfg: Config, s: State, log: Log, now: nat, due: seq<PointConfig>, o: PollOutcome, broker: Broker)
    requires Agree(cfg, s, log, now) && Safe(cfg, log) && GoodPoll(cfg, log, now, due)
    ensures var polled := RecordPoll(cfg, s, now, due, o);
      var batch := PublishBatch(cfg, polled, WithTopics(o.samples, cfg.topicOf), broker);
      var after := log + [Polled(now, due, o)];
      Agree(cfg, batch.state, after + batch.events, now) && Safe(cfg, after + batch.events)
  {
    hide AgreeTables, Safe, AfterPoll, MarkPolled, RecordSamples, RecordFailures, Deliveries;
    var polled, after := RecordPoll(cfg, s, now, due, o), log + [Polled(now, due, o)];
    RecordPollAgree(cfg, s, log, now, due, o);
    Snoc(log, Polled(now, due, o));
    if o.samples == [] {
      assert after + [] == after;
      assert WithTopics(o.samples, cfg.topicOf) == [];
    } else {
      var samples := WithTopics(o.samples, cfg.topicOf);
      PublishBatchAgree(cfg, polled, after, now, RecordFailures(s.status, o.failures), samples, broker);
    }
  }

  lemma PollPhaseAgree(cfg: Config, s: State, log: Log, clock: nat, t: Tick)
    requires Agree(cfg, s, log, clock) && Safe(cfg, log) && clock <= t.now
    ensures var o := PollPhase(cfg, s, t); Agree(cfg, o.state, log + o.events, t.now) && Safe(cfg, log + o.events)
  {
    hide Agree, Safe, EligiblePoints, DuePoints, RecordPoll, PublishBatch;
    ClockAdvances(cfg, s, log, clock, t.now);
    DuePointsAreEligible(cfg, s, log, t.now, cfg.points);
    var due := DuePoints(t.now, cfg.points, s);
    if due == [] {
      assert log + [] == log;
    } else if t.pollReply.None? {
      PollErrorAgree(cfg, s, log, t.now, due);
    } else {
      var o := t.pollReply.value;
      var e := Polled(t.now, due, o);
      var batch := PublishBatch(cfg, RecordPoll(cfg, s, t.now, due, o), WithTopics(o.samples, cfg.topicOf), t.broker);
      PolledAgree(cfg, s, log, t.now, due, o, t.broker);
      assert log + ([e] + batch.events) == log + [e] + batch.events;
    }
  }

  lemma PollErrorAgree(cfg: Config, s: State, log: Log, now: nat, due: seq<PointConfig>)
    requires Agree(cfg, s, log, now) && Safe(cfg, log) && GoodPoll(cfg, log, now, due)
    ensures Agree(cfg, s, log + [PollError(now, due)], now) && Safe(cfg, log + [PollError(now, due)])
  {
    hide AgreeStatus, AgreeBackoff, AgreeRefresh, AgreePolls, AgreePublish, AgreeTimers, Reads, Totals, Reported,
      Safe, GoodPoll;
    var e := PollError(now, due);
    SafeGrows(cfg, log, e);
    TotalsAppend(log, e);
    RefreshIgnores(s.unresolved, log, e);
    BackoffIgnores(s.backoffs, log, e, cfg.backoffMax);
    PollsIgnore(s.lastPoll, log, now, e);
    PublishIgnores(s.status, log, e);
    ReadsIgnore(s.status, log, e);
    TimersIgnore(cfg, s, log, e);
  }

  lemma HealthAgree(cfg: Config, s: State, log: Log, clock: nat, t: Tick)
    requires Agree(cfg, s, log, clock) && Safe(cfg, log) && HealthDue(cfg, s, t)
    ensures var o := HealthPhase(cfg, s, t); Agree(cfg, o.state, log + o.events, clock) && Safe(cfg, log + o.events)
  {
    hide AgreeStatus, AgreeBackoff, AgreeRefresh, AgreePolls, AgreePublish, Reads, Totals, Reported, Safe;
    var o := HealthPhase(cfg, s, t);
    var e := o.events[0];
    StaleIdsAgree(s.status, Reads(log));
    SafeGrows(cfg, log, e);
    TotalsAppend(log, e);
    RefreshIgnores(s.unresolved, log, e);
    BackoffIgnores(s.backoffs, log, e, cfg.backoffMax);
    PollsIgnore(s.lastPoll, log, clock, e);
    PublishIgnores(s.status, log, e);
    ReadsIgnore(s.status, log, e);
    Snoc(log, e);
  }

  lemma HealthPhaseAgree(cfg: Config, s: State, log: Log, clock: nat, t: Tick)
    requires Agree(cfg, s, log, clock) && Safe(cfg, log)
    ensures var o := HealthPhase(cfg, s, t); Agree(cfg, o.state, log + o.events, clock) && Safe(cfg, log + o.events)
  {
    hide Agree, Safe;
    assert log + [] == log;
    if HealthDue(cfg, s, t) {
      HealthAgree(cfg, s, log, clock, t);
    }
  }

  // ---- Whole runs ----

  lemma IterateAgree(cfg: Config, s: State, log: Log, clock: nat, t: Tick)
    requires Agree(cfg, s, log, clock) && Safe(cfg, log) && clock <= t.now
    ensures var o := Iterate(cfg, s, t); Agree(cfg, o.state, log + o.events, t.now) && Safe(cfg, log + o.events)
  {
    hide Agree, Safe, Refresh, PollPhase, HealthPhase;
    var a := KeepalivePhase(cfg, s, t);
    KeepaliveAgree(cfg, s, log, clock, t);
    var b := ResolvePhase(cfg, a.state, t, KeepaliveDue(cfg, s, t));
    ResolveAgree(cfg, a.state, log + a.events, clock, t, KeepaliveDue(cfg, s, t));
    var c := PollPhase(cfg, b.state, t);
    PollPhaseAgree(cfg, b.state, log + a.events + b.events, clock, t);
    var d := HealthPhase(cfg, c.state, t);
    HealthPhaseAgree(cfg, c.state, log + a.events + b.events + c.events, t.now, t);
    assert log + (a.events + b.events + c.events + d.events) ==
           log + a.events + b.events + c.events + d.events;
  }

  lemma KeepaliveAgree(cfg: Config, s: State, log: Log, clock: nat, t: Tick)
    requires Agree(cfg, s, log, clock) && Safe(cfg, log)
    ensures var o := KeepalivePhase(cfg, s, t); Agree(cfg, o.state, log + o.events, clock) && Safe(cfg, log + o.events)
  {
    hide AgreeStatus, AgreeBackoff, AgreeRefresh, AgreePolls, AgreePublish, AgreeCounts, Settled, Safe, Refresh;
    assert log + [] == log;
    if KeepaliveDue(cfg, s, t) {
      var e := Asked(t.keepaliveAt, true, RefreshTargets(cfg.points));
      var after := s.(lastRefresh := t.keepaliveAt, lastResolve := t.keepaliveAt);
      var o := Refresh(cfg, after, t.keepaliveReply);
      AskedAgree(cfg, s, log, clock, t.keepaliveAt, true, RefreshTargets(cfg.points));
      hide *;
      RefreshAgree(cfg, after, log + [e], clock, t.keepaliveReply);
      assert log + ([e] + o.events) == log + [e] + o.events;
    }
  }

  lemma ResolveAgree(cfg: Config, s: State, log: Log, clock: nat, t: Tick, refreshed: bool)
    requires Agree(cfg, s, log, clock) && Safe(cfg, log)
    ensures var o := ResolvePhase(cfg, s, t, refreshed);
      Agree(cfg, o.state, log + o.events, clock) && Safe(cfg, log + o.events)
  {
    hide AgreeStatus, AgreeBackoff, AgreePolls, AgreePublish, AgreeCounts, Settled, Safe, Refresh;
    assert log + [] == log;
    if !refreshed && ResolveDue(cfg, s, t) {
      var e := Asked(t.resolveAt, false, s.unresolved);
      var after := s.(lastResolve := t.resolveAt);
      var o := Refresh(cfg, after, t.resolveReply);
      AskedAgree(cfg, s, log, clock, t.resolveAt, false, s.unresolved);
      hide *;
      RefreshAgree(cfg, after, log + [e], clock, t.resolveReply);
      assert log + ([e] + o.events) == log + [e] + o.events;
    }
  }

  lemma NothingYet(cfg: Config)
    ensures AgreeRefresh({}, []) && AgreeBackoff(map[], [], cfg.backoffMax) && AgreePolls(map[], [], 0)
    ensures AgreeStatus(map[], Reads([])) && AgreePublish(map[], []) && Safe(cfg, [])
    ensures Totals([]) == Reported([]) == Counts(0, 0, 0) && Settled(cfg, [])
  {
  }

  lemma BlankAgree(cfg: Config, at: nat)
    ensures var log := [Asked(at, true, RefreshTargets(cfg.points))];
      Agree(cfg, State({}, map[], map[], map[], 0, 0, 0, at, at, FirstHealth(cfg, at)), log, 0) && Safe(cfg, log)
  {
    var e := Asked(at, true, RefreshTargets(cfg.points));
    NothingYet(cfg);
    assert [] + [e] == [e];
    assert LastAskedAll([e]) == at && LastAsked([e]) == at && HealthSince(cfg, [e]) == FirstHealth(cfg, at);
    hide AgreeRefresh, AgreeBackoff, AgreePolls, AgreeStatus, AgreePublish, Reads, Totals, Reported, Safe,
      RefreshTargets, FirstHealth, LastAskedAll, LastAsked, HealthSince;
    RefreshIgnores({}, [], e);
    BackoffIgnores(map[], [], e, cfg.backoffMax);
    PollsIgnore(map[], [], 0, e);
    ReadsIgnore(map[], [], e);
    PublishIgnores(map[], [], e);
    TotalsAppend([], e);
    SafeGrows(cfg, [], e);
  }

  lemma StartAgree(cfg: Config, at: nat, reply: Option<RefreshOutcome>)
    ensures var o := Start(cfg, at, reply); Agree(cfg, o.state, o.events, 0) && Safe(cfg, o.events)
  {
    hide Agree, Safe, SkipFailures, RecordFailures;
    var o := Start(cfg, at, reply);
    var ask := [Asked(at, true, RefreshTargets(cfg.points))];
    var blank := State({}, map[], map[], map[], 0, 0, 0, at, at, FirstHealth(cfg, at));
    BlankAgree(cfg, at);
    RefreshAgree(cfg, blank, ask, 0, reply);
    if reply.Some? {
      var r := reply.value;
      assert NewlyUnresolved({}, r) == SetOf(r.unresolved);
      assert {} - SetOf(r.resolved) + SetOf(r.unresolved) == SetOf(r.unresolved);
      assert blank.backoffs - SetOf(r.resolved) == map[];
      assert o.events == ask + Refresh(cfg, blank, reply).events;
    } else {
      NoDeviceNoFailures(cfg.points);
      NoFailuresRecorded(map[]);
      assert o.events == ask + [];
    }
  }

  lemma {:induction false} NoDeviceNoFailures(points: seq<PointConfig>)
    ensures SkipFailures(points, {}) == []
  {
    if points != [] {
      NoDeviceNoFailures(points[..|points| - 1]);
    }
  }

  lemma RunSteps(cfg: Config, at: nat, reply: Option<RefreshOutcome>, ticks: seq<Tick>)
    ensures Run(cfg, at, reply, []) == Start(cfg, at, reply)
    ensures ticks != [] ==>
      var before := Run(cfg, at, reply, ticks[..|ticks| - 1]);
      var step := Iterate(cfg, before.state, ticks[|ticks| - 1]);
      Run(cfg, at, reply, ticks) == Outcome(step.state, before.events + step.events)
  {
    hide Iterate, Start;
  }

  lemma ClockOfFront(ticks: seq<Tick>)
    requires ClockAscends(ticks) && ticks != []
    ensures ClockAscends(ticks[..|ticks| - 1])
    ensures |ticks| > 1 ==> ticks[|ticks| - 2].now <= ticks[|ticks| - 1].now
  {
  }

  // However long the loop runs and whatever the adapter and the broker answer: every event is as the
  // events before it demand, and none that they call for is missing.
  lemma {:induction false} RunSafe(cfg: Config, at: nat, reply: Option<RefreshOutcome>, ticks: seq<Tick>)
    requires ClockAscends(ticks)
    ensures var o := Run(cfg, at, reply, ticks);
      Safe(cfg, o.events) && Agree(cfg, o.state, o.events, if ticks == [] then 0 else ticks[|ticks| - 1].now)
  {
    hide *;
    RunSteps(cfg, at, reply, ticks);
    if ticks == [] {
      StartAgree(cfg, at, reply);
    } else {
      var n := |ticks| - 1;
      ClockOfFront(ticks);
      RunSafe(cfg, at, reply, ticks[..n]);
      var before := Run(cfg, at, reply, ticks[..n]);
      IterateAgree(cfg, before.state, before.events, if n == 0 then 0 else ticks[n - 1].now, ticks[n]);
    }
  }
}
