// Per-device exponential backoff when every read of a device fails. Times and durations are
// nanoseconds.
module Backoff {
  import opened Wrappers
  import opened Model
  import Bits
  import Text

  const NANOS_PER_SEC: nat := 1_000_000_000
  const DEVICE_BACKOFF_INITIAL: nat := 10 * NANOS_PER_SEC

  datatype DeviceBackoff = DeviceBackoff(delay: nat, until: nat)

  function Min(a: nat, b: nat): nat {
    if a < b then a else b
  }

  function Max(a: nat, b: nat): nat {
    if a < b then b else a
  }

  // The longest delay, from the connection settings; never below ten seconds.
  function DeviceBackoffMax(conn: Addressing): (max: nat)
    ensures DEVICE_BACKOFF_INITIAL <= max
  {
    if "device_backoff_max_secs" !in conn then 300 * NANOS_PER_SEC
    else
      match conn["device_backoff_max_secs"]
      case JNumber(_, n) => Max(if n.Some? then n.value else 300, 10) * NANOS_PER_SEC
      case JString(t) =>
        var n := Text.ParseUnsigned(Text.Trim(t), U64_LIMIT);
        Max(if n.Some? then n.value else 300, 10) * NANOS_PER_SEC
      case _ => 300 * NANOS_PER_SEC
  }

  // A configured number of seconds, given as a JSON number or as text, is the limit, but for ten
  // seconds at least; a value that is no number counts as 300, and so does none at all.
  lemma ConfiguredMax(conn: Addressing, n: nat)
    requires n < U64_LIMIT
    ensures var key := "device_backoff_max_secs";
      && (key in conn && (conn[key] == JString(Text.Decimal(n)) || (conn[key].JNumber? && conn[key].asU64 == Some(n))) ==>
            DeviceBackoffMax(conn) == (if n >= 10 then n else 10) * NANOS_PER_SEC)
      && ((key in conn ==> conn[key].JNull? || conn[key].JOther? || (conn[key].JNumber? && conn[key].asU64.None?)) ==>
            DeviceBackoffMax(conn) == 300 * NANOS_PER_SEC)
  {
    hide Text.Decimal, Text.Trim, Text.ParseUnsigned, Text.DigitsValue;
    Text.DecimalReadsBack(n, U64_LIMIT);
    Text.DecimalTrimmed(n);
  }

  ghost predicate Healthy(outcome: PollOutcome, device: nat) {
    exists s :: s in outcome.samples && DeviceInstance(s.point) == Some(device)
  }

  ghost predicate Failed(outcome: PollOutcome, device: nat) {
    exists f :: f in outcome.failures && DeviceInstance(f.point) == Some(device)
  }

  // Every reading the outcome has of the device is a failure, and there is one.
  ghost predicate AllFailed(outcome: PollOutcome, device: nat) {
    Failed(outcome, device) && !Healthy(outcome, device)
  }

  function Escalate(previous: Option<DeviceBackoff>, now: nat, maxDelay: nat): DeviceBackoff {
    var delay :=
      match previous
      case Some(b) => Min(2 * b.delay, maxDelay)
      case None => Min(DEVICE_BACKOFF_INITIAL, maxDelay);
    DeviceBackoff(delay, now + delay)
  }

  function Lookup(backoffs: map<nat, DeviceBackoff>, device: nat): Option<DeviceBackoff> {
    if device in backoffs then Some(backoffs[device]) else None
  }

  // What one poll does to one device's entry.
  ghost function Next(entry: Option<DeviceBackoff>, outcome: PollOutcome, device: nat, now: nat, maxDelay: nat)
    : Option<DeviceBackoff>
  {
    if Healthy(outcome, device) then None
    else if Failed(outcome, device) then Some(Escalate(entry, now, maxDelay))
    else entry
  }

  // The table after a poll of some devices: their entries move on, all others stay.
  ghost predicate Updated(before: map<nat, DeviceBackoff>, after: map<nat, DeviceBackoff>, polled: set<nat>,
                          outcome: PollOutcome, now: nat, maxDelay: nat)
  {
    forall d :: Lookup(after, d) ==
      if d in polled then Next(Lookup(before, d), outcome, d, now, maxDelay) else Lookup(before, d)
  }

  ghost function AfterPoll(before: map<nat, DeviceBackoff>, polled: set<nat>, outcome: PollOutcome,
                           now: nat, maxDelay: nat): (after: map<nat, DeviceBackoff>)
    ensures Updated(before, after, polled, outcome, now, maxDelay)
  {
    map d | d in before.Keys + polled &&
            (d in polled ==> Next(Lookup(before, d), outcome, d, now, maxDelay).Some?) ::
      if d in polled then Next(Lookup(before, d), outcome, d, now, maxDelay).value else before[d]
  }

  lemma UpdatedUnique(before: map<nat, DeviceBackoff>, a: map<nat, DeviceBackoff>, b: map<nat, DeviceBackoff>,
                      polled: set<nat>, outcome: PollOutcome, now: nat, maxDelay: nat)
    requires Updated(before, a, polled, outcome, now, maxDelay)
    requires Updated(before, b, polled, outcome, now, maxDelay)
    ensures a == b
  {
    forall d | d in a.Keys + b.Keys
      ensures d in a && d in b && a[d] == b[d]
    {
      assert Lookup(a, d) == Lookup(b, d);
    }
  }

  method DevicesOfSamples(samples: seq<PointSample>) returns (devices: set<nat>)
    ensures forall d :: d in devices <==> exists s :: s in samples && DeviceInstance(s.point) == Some(d)
  {
    devices := {};
    for k := 0 to |samples|
      invariant forall d :: d in devices <==> exists i :: 0 <= i < k && DeviceInstance(samples[i].point) == Some(d)
    {
      var device := DeviceInstance(samples[k].point);
      if device.Some? {
        devices := devices + {device.value};
      }
    }
  }

  method DevicesOfFailures(failures: seq<PointFailure>) returns (devices: set<nat>)
    ensures forall d :: d in devices <==> exists f :: f in failures && DeviceInstance(f.point) == Some(d)
  {
    devices := {};
    for k := 0 to |failures|
      invariant forall d :: d in devices <==> exists i :: 0 <= i < k && DeviceInstance(failures[i].point) == Some(d)
    {
      var device := DeviceInstance(failures[k].point);
      if device.Some? {
        devices := devices + {device.value};
      }
    }
  }

  // The polled devices are visited in an arbitrary order.
  method UpdateDeviceBackoffs(before: map<nat, DeviceBackoff>, polled: set<nat>, outcome: PollOutcome,
                              now: nat, maxDelay: nat)
    returns (backoffs: map<nat, DeviceBackoff>)
    ensures backoffs == AfterPoll(before, polled, outcome, now, maxDelay)
  {
    var healthy := DevicesOfSamples(outcome.samples);
    var failed := DevicesOfFailures(outcome.failures);
    backoffs := before;
    var rest := polled;
    while rest != {}
      invariant rest <= polled
      invariant Updated(before, backoffs, polled - rest, outcome, now, maxDelay)
    {
      var device :| device in rest;
      rest := rest - {device};
      if device in healthy {
        backoffs := backoffs - {device};
      } else if device in failed {
        backoffs := backoffs[device := Escalate(Lookup(backoffs, device), now, maxDelay)];
      }
    }
    assert polled - rest == polled;
    UpdatedUnique(before, backoffs, AfterPoll(before, polled, outcome, now, maxDelay), polled, outcome, now, maxDelay);
  }

  // ---- The delays ----

  // The delay after k polls in a row in which all reads failed.
  function DelayAfter(k: nat, maxDelay: nat): nat
    requires k > 0
  {
    Min(DEVICE_BACKOFF_INITIAL * Bits.Pow2(k - 1), maxDelay)
  }

  lemma DelayDoubles(k: nat, maxDelay: nat)
    requires k > 0
    ensures Min(2 * DelayAfter(k, maxDelay), maxDelay) == DelayAfter(k + 1, maxDelay)
  {
    assert DEVICE_BACKOFF_INITIAL * Bits.Pow2(k) == 2 * (DEVICE_BACKOFF_INITIAL * Bits.Pow2(k - 1));
  }

  lemma DelayBounds(k: nat, maxDelay: nat)
    requires k > 0 && DEVICE_BACKOFF_INITIAL <= maxDelay
    ensures DEVICE_BACKOFF_INITIAL <= DelayAfter(k, maxDelay) <= maxDelay
  {
    assert DEVICE_BACKOFF_INITIAL * Bits.Pow2(k - 1) >= DEVICE_BACKOFF_INITIAL * 1;
  }
}
