// The poll-and-publish loop itself: an object whose fields the loop updates in place, proved to
// follow the transition function of the scheduler.
module Worker {
  import opened Wrappers
  import opened Model
  import opened Backoff
  import opened Publish
  import opened Scheduler
  import opened History
  import opened Guarantees

  class Republisher {
    const cfg: Config
    var unresolved: set<nat>
    var backoffs: map<nat, DeviceBackoff>
    var lastPoll: map<PointIdentity, nat>
    var status: StatusTable
    var published: nat
    var failedReads: nat
    var failedPublishes: nat
    var lastResolve: nat
    var lastRefresh: nat
    var lastHealth: nat
    var sent: seq<Event>

    function View(): State
      reads this
    {
      State(unresolved, backoffs, lastPoll, status, published, failedReads, failedPublishes,
            lastResolve, lastRefresh, lastHealth)
    }

    constructor (cfg: Config, at: nat, reply: Option<RefreshOutcome>)
      ensures this.cfg == cfg && Outcome(View(), sent) == Start(cfg, at, reply)
    {
      this.cfg := cfg;
      unresolved := if reply.Some? then SetOf(reply.value.unresolved) else {};
      backoffs, lastPoll, status := map[], map[], map[];
      published, failedReads, failedPublishes := 0, 0, 0;
      lastResolve, lastRefresh := at, at;
      lastHealth := FirstHealth(cfg, at);
      sent := [Asked(at, true, RefreshTargets(cfg.points))] + if reply.Some? then [Refreshed(reply.value)] else [];
      new;
      RecordUnresolvedFailures(unresolved);
    }

    method ApplyRefresh(r: RefreshOutcome) returns (newly: set<nat>)
      modifies this`unresolved, this`backoffs
      ensures unresolved == old(unresolved) - SetOf(r.resolved) + SetOf(r.unresolved)
      ensures backoffs == old(backoffs) - SetOf(r.resolved)
      ensures newly == NewlyUnresolved(old(unresolved), r)
    {
      for k := 0 to |r.resolved|
        invariant unresolved == old(unresolved) - SetOf(r.resolved[..k])
        invariant backoffs == old(backoffs) - SetOf(r.resolved[..k])
      {
        assert SetOf(r.resolved[..k + 1]) == SetOf(r.resolved[..k]) + {r.resolved[k]};
        unresolved := unresolved - {r.resolved[k]};
        backoffs := backoffs - {r.resolved[k]};
      }
      assert r.resolved[..|r.resolved|] == r.resolved;
      newly := {};
      ghost var left := old(unresolved) - SetOf(r.resolved);
      for k := 0 to |r.unresolved|
        invariant unresolved == left + SetOf(r.unresolved[..k])
        invariant newly == SetOf(r.unresolved[..k]) - left
        invariant backoffs == old(backoffs) - SetOf(r.resolved)
      {
        assert SetOf(r.unresolved[..k + 1]) == SetOf(r.unresolved[..k]) + {r.unresolved[k]};
        if r.unresolved[k] !in unresolved {
          unresolved := unresolved + {r.unresolved[k]};
          newly := newly + {r.unresolved[k]};
        }
      }
      assert r.unresolved[..|r.unresolved|] == r.unresolved;
      assert unresolved == left + SetOf(r.unresolved) && newly == SetOf(r.unresolved) - left;
    }

    method NoteFailures(failures: seq<PointFailure>)
      modifies this`status
      ensures status == RecordFailures(old(status), failures)
    {
      for k := 0 to |failures|
        invariant status == RecordFailures(old(status), failures[..k])
      {
        assert failures[..k + 1][..k] == failures[..k];
        var id := Identity(failures[k].point);
        status := status[id := StatusOf(status, id).RecordReadFailure(failures[k].error)];
      }
      assert failures[..|failures|] == failures;
    }

    method NoteSamples(samples: seq<PointSample>)
      modifies this`status
      ensures status == RecordSamples(old(status), samples)
    {
      for k := 0 to |samples|
        invariant status == RecordSamples(old(status), samples[..k])
      {
        assert samples[..k + 1][..k] == samples[..k];
        var id := Identity(samples[k].point);
        status := status[id := StatusOf(status, id).RecordSample(samples[k])];
      }
      assert samples[..|samples|] == samples;
    }

    method RecordUnresolvedFailures(devices: set<nat>)
      modifies this`status, this`sent
      ensures status == RecordFailures(old(status), SkipFailures(cfg.points, devices))
      ensures sent == old(sent) + SkippedEvents(SkipFailures(cfg.points, devices))
    {
      var failures := SkipFailures(cfg.points, devices);
      if failures == [] {
        return;
      }
      NoteFailures(failures);
      sent := sent + [Skipped(failures)];
    }

    method HandleRefresh(reply: Option<RefreshOutcome>)
      modifies this`unresolved, this`backoffs, this`status, this`sent
      ensures View() == Refresh(cfg, old(View()), reply).state
      ensures sent == old(sent) + Refresh(cfg, old(View()), reply).events
    {
      hide SkipFailures, RecordFailures, SetOf, NewlyUnresolved, SkippedEvents;
      if reply.Some? {
        sent := sent + [Refreshed(reply.value)];
        var newly := ApplyRefresh(reply.value);
        RecordUnresolvedFailures(newly);
      }
    }

    method RefreshIfDue(t: Tick)
      modifies this`unresolved, this`backoffs, this`status, this`sent, this`lastRefresh, this`lastResolve
      ensures var a := KeepalivePhase(cfg, old(View()), t);
        var b := ResolvePhase(cfg, a.state, t, KeepaliveDue(cfg, old(View()), t));
        View() == b.state && sent == old(sent) + a.events + b.events
    {
      hide Refresh;
      var refreshed := Elapsed(t.keepaliveAt, lastRefresh) >= cfg.keepaliveInterval;
      if refreshed {
        lastRefresh, lastResolve := t.keepaliveAt, t.keepaliveAt;
        sent := sent + [Asked(t.keepaliveAt, true, RefreshTargets(cfg.points))];
        HandleRefresh(t.keepaliveReply);
      }
      if !refreshed && unresolved != {} && Elapsed(t.resolveAt, lastResolve) >= cfg.reresolveInterval {
        lastResolve := t.resolveAt;
        sent := sent + [Asked(t.resolveAt, false, unresolved)];
        HandleRefresh(t.resolveReply);
      }
    }

    method MarkAllPolled(due: seq<PointConfig>, now: nat)
      modifies this`lastPoll
      ensures lastPoll == MarkPolled(old(lastPoll), due, now)
    {
      for k := 0 to |due|
        invariant lastPoll == MarkPolled(old(lastPoll), due[..k], now)
      {
        assert due[..k + 1][..k] == due[..k];
        lastPoll := lastPoll[Identity(due[k]) := now];
      }
      assert due[..|due|] == due;
    }

    method PublishSamples(samples: seq<PointSample>, broker: Broker)
      modifies this`status, this`published, this`failedPublishes, this`sent
      ensures View() == PublishBatch(cfg, old(View()), samples, broker).state
      ensures sent == old(sent) + PublishBatch(cfg, old(View()), samples, broker).events
    {
      hide EnvelopeDeliveries, ScalarDeliveries, SettleAll, CountOk, CountFailed;
      if samples != [] {
        var stats, deliveries;
        if cfg.format == NetixEnvelope {
          var envelopes;
          stats, status, deliveries, envelopes := PublishEnvelopes(samples, cfg.idOf, broker, status);
        } else {
          stats, status, deliveries := PublishScalar(samples, cfg.idOf, broker, status);
        }
        published := published + stats.published;
        failedPublishes := failedPublishes + stats.failed;
        sent := sent + [Published(deliveries)];
      }
    }

    method PollIfDue(t: Tick)
      modifies this`backoffs, this`lastPoll, this`status, this`published, this`failedReads, this`failedPublishes, this`sent
      ensures View() == PollPhase(cfg, old(View()), t).state
      ensures sent == old(sent) + PollPhase(cfg, old(View()), t).events
    {
      hide DuePoints, PublishBatch, RecordSamples, RecordFailures, AfterPoll, MarkPolled, WithTopics, DevicesOf;
      var due := DuePoints(t.now, cfg.points, View());
      if due != [] {
        if t.pollReply.None? {
          sent := sent + [PollError(t.now, due)];
        } else {
          var o := t.pollReply.value;
          var samples := WithTopics(o.samples, cfg.topicOf);
          backoffs := UpdateDeviceBackoffs(backoffs, DevicesOf(due), o, t.now, cfg.backoffMax);
          MarkAllPolled(due, t.now);
          failedReads := failedReads + |o.failures|;
          NoteFailures(o.failures);
          NoteSamples(samples);
          assert View() == RecordPoll(cfg, old(View()), t.now, due, o);
          sent := sent + [Polled(t.now, due, o)];
          PublishSamples(samples, t.broker);
        }
      }
    }

    method CountStale() returns (stale: nat)
      ensures stale == |StaleIds(status)|
    {
      var rest := status.Keys;
      ghost var seen: set<PointIdentity> := {};
      stale := 0;
      while rest != {}
        invariant rest <= status.Keys
        invariant seen == (set id | id in status.Keys - rest && status[id].stale)
        invariant stale == |seen|
      {
        var id :| id in rest;
        rest := rest - {id};
        if status[id].stale {
          assert id !in seen;
          seen := seen + {id};
          stale := stale + 1;
        }
      }
      assert seen == StaleIds(status);
    }

    method ReportIfDue(t: Tick)
      modifies this`published, this`failedReads, this`failedPublishes, this`lastHealth, this`sent
      ensures View() == HealthPhase(cfg, old(View()), t).state
      ensures sent == old(sent) + HealthPhase(cfg, old(View()), t).events
    {
      if Elapsed(t.healthAt, lastHealth) >= cfg.healthInterval {
        var stale := CountStale();
        sent := sent + [Health(t.healthAt, t.healthDone, HealthSnapshot(published, failedReads, failedPublishes, stale))];
        lastHealth := t.healthDone;
        published, failedReads, failedPublishes := 0, 0, 0;
      }
    }

    method Step(t: Tick)
      modifies this
      ensures View() == Iterate(cfg, old(View()), t).state
      ensures sent == old(sent) + Iterate(cfg, old(View()), t).events
    {
      hide KeepalivePhase, ResolvePhase, PollPhase, HealthPhase;
      RefreshIfDue(t);
      PollIfDue(t);
      ReportIfDue(t);
    }
  }

  // The whole loop: what it has sent is safe at every point, and its state agrees with it.
  method RunRepublisher(cfg: Config, at: nat, reply: Option<RefreshOutcome>, ticks: seq<Tick>)
    returns (worker: Republisher)
    requires ClockAscends(ticks)
    ensures fresh(worker)
    ensures worker.cfg == cfg && Outcome(worker.View(), worker.sent) == Run(cfg, at, reply, ticks)
    ensures Safe(cfg, worker.sent)
  {
    hide Iterate, Start, Safe, Agree;
    worker := new Republisher(cfg, at, reply);
    for k := 0 to |ticks|
      invariant fresh(worker)
      invariant worker.cfg == cfg && Outcome(worker.View(), worker.sent) == Run(cfg, at, reply, ticks[..k])
    {
      assert ticks[..k + 1][..k] == ticks[..k];
      worker.Step(ticks[k]);
    }
    assert ticks[..|ticks|] == ticks;
    RunSafe(cfg, at, reply, ticks);
  }
}
