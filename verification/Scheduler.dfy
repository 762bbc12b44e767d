// The continuous poll-and-publish loop as a transition function: one iteration maps the loop's
// state and what the outside world answers to a new state and the events it emits.
module Scheduler {
  import opened Wrappers
  import opened Model
  import opened Backoff
  import opened Publish
  import Text

  datatype Config = Config(
    points: seq<PointConfig>, backoffMax: nat,
    healthInterval: nat, reresolveInterval: nat, keepaliveInterval: nat,
    format: Format, idOf: PointConfig -> string, topicOf: PointConfig -> string)

  datatype HealthSnapshot = HealthSnapshot(published: nat, failedReads: nat, failedPublishes: nat, stalePoints: nat)

  datatype State = State(
    unresolved: set<nat>, backoffs: map<nat, DeviceBackoff>,
    lastPoll: map<PointIdentity, nat>, status: StatusTable,
    published: nat, failedReads: nat, failedPublishes: nat,
    lastResolve: nat, lastRefresh: nat, lastHealth: nat)

  // What one iteration meets: the clock readings it takes, in order, and the answers of the
  // adapter (None is an error) and of the broker.
  datatype Tick = Tick(
    now: nat, keepaliveAt: nat, resolveAt: nat, healthAt: nat, healthDone: nat,
    keepaliveReply: Option<RefreshOutcome>, resolveReply: Option<RefreshOutcome>,
    pollReply: Option<PollOutcome>, broker: Broker)

  // `Asked` is a request to the adapter to refresh devices: all of the configuration's, or those that
  // are unresolved. `Health` was due at its first time and done at its second.
  datatype Event =
    | Asked(at: nat, all: bool, devices: set<nat>)
    | Refreshed(refresh: RefreshOutcome)
    | Skipped(failures: seq<PointFailure>)
    | Polled(at: nat, due: seq<PointConfig>, outcome: PollOutcome)
    | PollError(at: nat, due: seq<PointConfig>)
    | Published(deliveries: seq<Delivery>)
    | Health(at: nat, done: nat, snapshot: HealthSnapshot)

  datatype Outcome = Outcome(state: State, events: seq<Event>)

  function SkipError(device: nat): string {
    "device " + Text.Decimal(device) + " not in I-Am cache"
  }

  function Elapsed(now: nat, since: nat): nat {
    if since <= now then now - since else 0
  }

  function AsSecs(duration: nat): nat {
    duration / NANOS_PER_SEC
  }

  // ---- Choosing the points to poll ----

  predicate DeviceBlocked(p: PointConfig, now: nat, unresolved: set<nat>, backoffs: map<nat, DeviceBackoff>) {
    var device := DeviceInstance(p);
    device.Some? &&
    (device.value in unresolved || (device.value in backoffs && now < backoffs[device.value].until))
  }

  predicate Due(p: PointConfig, now: nat, s: State) {
    && p.enabled
    && !DeviceBlocked(p, now, s.unresolved, s.backoffs)
    && (Identity(p) in s.lastPoll ==> AsSecs(Elapsed(now, s.lastPoll[Identity(p)])) >= p.pollIntervalSecs)
  }

  function DuePoints(now: nat, points: seq<PointConfig>, s: State): seq<PointConfig> {
    if points == [] then []
    else
      var p := points[|points| - 1];
      DuePoints(now, points[..|points| - 1], s) + if Due(p, now, s) then [p] else []
  }

  function DevicesOf(points: seq<PointConfig>): set<nat> {
    set p | p in points && DeviceInstance(p).Some? :: DeviceInstance(p).value
  }

  // The devices of the enabled points.
  function RefreshTargets(points: seq<PointConfig>): set<nat> {
    set p | p in points && p.enabled && DeviceInstance(p).Some? :: DeviceInstance(p).value
  }

  // ---- Status bookkeeping ----

  function RecordFailures(table: StatusTable, failures: seq<PointFailure>): StatusTable {
    if failures == [] then table
    else
      var f := failures[|failures| - 1];
      var rest := RecordFailures(table, failures[..|failures| - 1]);
      rest[Identity(f.point) := StatusOf(rest, Identity(f.point)).RecordReadFailure(f.error)]
  }

  function RecordSamples(table: StatusTable, samples: seq<PointSample>): StatusTable {
    if samples == [] then table
    else
      var s := samples[|samples| - 1];
      var rest := RecordSamples(table, samples[..|samples| - 1]);
      rest[Identity(s.point) := StatusOf(rest, Identity(s.point)).RecordSample(s)]
  }

  function SkipFailures(points: seq<PointConfig>, devices: set<nat>): seq<PointFailure> {
    if points == [] then []
    else
      var p := points[|points| - 1];
      SkipFailures(points[..|points| - 1], devices) +
      if p.enabled && DeviceInstance(p).Some? && DeviceInstance(p).value in devices
      then [PointFailure(p, SkipError(DeviceInstance(p).value))] else []
  }

  function MarkPolled(lastPoll: map<PointIdentity, nat>, due: seq<PointConfig>, now: nat): map<PointIdentity, nat> {
    if due == [] then lastPoll
    else MarkPolled(lastPoll, due[..|due| - 1], now)[Identity(due[|due| - 1]) := now]
  }

  function WithTopics(samples: seq<PointSample>, topicOf: PointConfig -> string): seq<PointSample> {
    seq(|samples|, i requires 0 <= i < |samples| => samples[i].(topic := topicOf(samples[i].point)))
  }

  function StaleIds(table: StatusTable): set<PointIdentity> {
    set id | id in table && table[id].stale
  }

  // ---- The phases of one iteration ----

  function SetOf(devices: seq<nat>): set<nat> {
    set d | d in devices
  }

  function NewlyUnresolved(unresolved: set<nat>, r: RefreshOutcome): set<nat> {
    SetOf(r.unresolved) - (unresolved - SetOf(r.resolved))
  }

  function SkippedEvents(failures: seq<PointFailure>): seq<Event> {
    if failures == [] then [] else [Skipped(failures)]
  }

  function Refresh(cfg: Config, s: State, reply: Option<RefreshOutcome>): Outcome {
    match reply
    case None => Outcome(s, [])
    case Some(r) =>
      var failures := SkipFailures(cfg.points, NewlyUnresolved(s.unresolved, r));
      Outcome(
        s.(unresolved := s.unresolved - SetOf(r.resolved) + SetOf(r.unresolved),
           backoffs := s.backoffs - SetOf(r.resolved),
           status := RecordFailures(s.status, failures)),
        [Refreshed(r)] + SkippedEvents(failures))
  }

  predicate KeepaliveDue(cfg: Config, s: State, t: Tick) {
    Elapsed(t.keepaliveAt, s.lastRefresh) >= cfg.keepaliveInterval
  }

  function KeepalivePhase(cfg: Config, s: State, t: Tick): Outcome {
    if KeepaliveDue(cfg, s, t) then
      var o := Refresh(cfg, s.(lastRefresh := t.keepaliveAt, lastResolve := t.keepaliveAt), t.keepaliveReply);
      Outcome(o.state, [Asked(t.keepaliveAt, true, RefreshTargets(cfg.points))] + o.events)
    else
      Outcome(s, [])
  }

  predicate ResolveDue(cfg: Config, s: State, t: Tick) {
    s.unresolved != {} && Elapsed(t.resolveAt, s.lastResolve) >= cfg.reresolveInterval
  }

  function ResolvePhase(cfg: Config, s: State, t: Tick, refreshed: bool): Outcome {
    if !refreshed && ResolveDue(cfg, s, t) then
      var o := Refresh(cfg, s.(lastResolve := t.resolveAt), t.resolveReply);
      Outcome(o.state, [Asked(t.resolveAt, false, s.unresolved)] + o.events)
    else
      Outcome(s, [])
  }

  // The books after a poll that went through.
  ghost function RecordPoll(cfg: Config, s: State, now: nat, due: seq<PointConfig>, o: PollOutcome): State {
    s.(backoffs := AfterPoll(s.backoffs, DevicesOf(due), o, now, cfg.backoffMax),
       lastPoll := MarkPolled(s.lastPoll, due, now),
       failedReads := s.failedReads + |o.failures|,
       status := RecordSamples(RecordFailures(s.status, o.failures), WithTopics(o.samples, cfg.topicOf)))
  }

  function PublishBatch(cfg: Config, s: State, samples: seq<PointSample>, broker: Broker): Outcome {
    if samples == [] then Outcome(s, [])
    else
      var deliveries := Deliveries(cfg.format, samples, cfg.idOf, broker);
      Outcome(
        s.(status := SettleAll(s.status, deliveries),
           published := s.published + CountOk(deliveries),
           failedPublishes := s.failedPublishes + CountFailed(deliveries)),
        [Published(deliveries)])
  }

  ghost function PollPhase(cfg: Config, s: State, t: Tick): Outcome {
    var due := DuePoints(t.now, cfg.points, s);
    if due == [] then Outcome(s, [])
    else
      match t.pollReply
      case None => Outcome(s, [PollError(t.now, due)])
      case Some(o) =>
        var batch := PublishBatch(cfg, RecordPoll(cfg, s, t.now, due, o), WithTopics(o.samples, cfg.topicOf), t.broker);
        Outcome(batch.state, [Polled(t.now, due, o)] + batch.events)
  }

  predicate HealthDue(cfg: Config, s: State, t: Tick) {
    Elapsed(t.healthAt, s.lastHealth) >= cfg.healthInterval
  }

  function HealthPhase(cfg: Config, s: State, t: Tick): Outcome {
    if HealthDue(cfg, s, t) then
      var snapshot := HealthSnapshot(s.published, s.failedReads, s.failedPublishes, |StaleIds(s.status)|);
      Outcome(
        s.(published := 0, failedReads := 0, failedPublishes := 0, lastHealth := t.healthDone),
        [Health(t.healthAt, t.healthDone, snapshot)])
    else
      Outcome(s, [])
  }

  ghost function Iterate(cfg: Config, s: State, t: Tick): Outcome {
    var a := KeepalivePhase(cfg, s, t);
    var b := ResolvePhase(cfg, a.state, t, KeepaliveDue(cfg, s, t));
    var c := PollPhase(cfg, b.state, t);
    var d := HealthPhase(cfg, c.state, t);
    Outcome(d.state, a.events + b.events + c.events + d.events)
  }

  // A health report is due at once, if the clock has run for its interval.
  function FirstHealth(cfg: Config, at: nat): nat {
    if cfg.healthInterval <= at then at - cfg.healthInterval else at
  }

  // Before the loop: one refresh of the device table, whose resolved devices are of no interest.
  function Start(cfg: Config, at: nat, reply: Option<RefreshOutcome>): Outcome {
    var unresolved := if reply.Some? then SetOf(reply.value.unresolved) else {};
    var failures := SkipFailures(cfg.points, unresolved);
    Outcome(
      State(unresolved, map[], map[], RecordFailures(map[], failures), 0, 0, 0, at, at, FirstHealth(cfg, at)),
      [Asked(at, true, RefreshTargets(cfg.points))] +
      (if reply.Some? then [Refreshed(reply.value)] else []) + SkippedEvents(failures))
  }

  // A whole run: the state it reaches and all events it emitted.
  ghost function Run(cfg: Config, at: nat, reply: Option<RefreshOutcome>, ticks: seq<Tick>): Outcome {
    if ticks == [] then Start(cfg, at, reply)
    else
      var before := Run(cfg, at, reply, ticks[..|ticks| - 1]);
      var step := Iterate(cfg, before.state, ticks[|ticks| - 1]);
      Outcome(step.state, before.events + step.events)
  }

  // The clock the loop reads never runs backwards.
  ghost predicate ClockAscends(ticks: seq<Tick>) {
    forall i, j :: 0 <= i < j < |ticks| ==> ticks[i].now <= ticks[j].now
  }
}
