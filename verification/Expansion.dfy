// Expanding a simulator configuration into devices and points with their addresses.
module Expansion {
  import opened Wrappers
  import opened Profiles

  const U32_LIMIT: int := 0x1_0000_0000

  datatype TemplatePoint = TemplatePoint(name: string, objectType: string, units: Option<string>, profile: ProfileSpec)
  datatype InstanceSpec = InstanceSpec(template: string, namePrefix: string, count: nat)
  datatype SimulatorConfig = SimulatorConfig(
    deviceIdBase: nat, perTemplateBlock: nat,
    templates: map<string, seq<TemplatePoint>>, instances: seq<InstanceSpec>)

  datatype PointSpec = PointSpec(name: string, objectType: string, units: Option<string>, instance: nat, profile: ProfileSpec)
  // A device is named by its block's prefix and its number within the block.
  datatype DeviceSpec = DeviceSpec(deviceId: nat, namePrefix: string, number: nat, points: seq<PointSpec>)

  datatype ConfigError = UnknownTemplate(template: string) | CountExceedsBlock(template: string, count: nat, blockSize: nat)

  // The configuration's integers are 32 bits wide.
  predicate Fits(cfg: SimulatorConfig) {
    && cfg.deviceIdBase < U32_LIMIT && cfg.perTemplateBlock < U32_LIMIT
    && forall i :: 0 <= i < |cfg.instances| ==> cfg.instances[i].count < U32_LIMIT
  }

  function BlockSize(cfg: SimulatorConfig): nat {
    if cfg.perTemplateBlock < 1 then 1 else cfg.perTemplateBlock
  }

  // Arithmetic on 32-bit integers wraps around.
  function Wrap(x: nat): (w: int)
    ensures 0 <= w < U32_LIMIT
  {
    x % U32_LIMIT
  }

  function DeviceId(cfg: SimulatorConfig, blockIdx: nat, n: nat): nat {
    Wrap(cfg.deviceIdBase + (blockIdx + 1) * BlockSize(cfg) + n)
  }

  // ---- What an expansion has to be ----

  predicate BlockOk(cfg: SimulatorConfig, inst: InstanceSpec) {
    inst.template in cfg.templates && inst.count <= BlockSize(cfg)
  }

  function BlockError(cfg: SimulatorConfig, inst: InstanceSpec): ConfigError {
    if inst.template !in cfg.templates then UnknownTemplate(inst.template)
    else CountExceedsBlock(inst.template, inst.count, BlockSize(cfg))
  }

  datatype Slot = Slot(blockIdx: nat, n: nat)

  // The devices to emit, block by block.
  function BlockSlots(blockIdx: nat, count: nat): seq<Slot> {
    seq(count, n requires 0 <= n < count => Slot(blockIdx, n))
  }

  function Slots(instances: seq<InstanceSpec>): seq<Slot> {
    if instances == [] then []
    else Slots(instances[..|instances| - 1]) + BlockSlots(|instances| - 1, instances[|instances| - 1].count)
  }

  function PointsOf(devices: seq<DeviceSpec>): seq<PointSpec> {
    if devices == [] then [] else PointsOf(devices[..|devices| - 1]) + devices[|devices| - 1].points
  }

  function CountType(points: seq<PointSpec>, objectType: string): nat {
    if points == [] then 0
    else CountType(points[..|points| - 1], objectType) + if points[|points| - 1].objectType == objectType then 1 else 0
  }

  // Every point's instance is one more than the points of its type emitted before it.
  ghost predicate Numbered(points: seq<PointSpec>) {
    forall k :: 0 <= k < |points| ==> points[k].instance == CountType(points[..k], points[k].objectType) + 1
  }

  predicate FromTemplate(p: PointSpec, tp: TemplatePoint) {
    p.name == tp.name && p.objectType == tp.objectType && p.units == tp.units && p.profile == tp.profile
  }

  ghost predicate MatchesSlot(cfg: SimulatorConfig, d: DeviceSpec, s: Slot) {
    && s.blockIdx < |cfg.instances|
    && var inst := cfg.instances[s.blockIdx];
       && inst.template in cfg.templates
       && d.deviceId == DeviceId(cfg, s.blockIdx, s.n)
       && d.namePrefix == inst.namePrefix && d.number == s.n + 1
       && |d.points| == |cfg.templates[inst.template]|
       && forall k :: 0 <= k < |d.points| ==> FromTemplate(d.points[k], cfg.templates[inst.template][k])
  }

  ghost predicate MatchesSlots(cfg: SimulatorConfig, devices: seq<DeviceSpec>, slots: seq<Slot>) {
    && |devices| == |slots|
    && forall q :: 0 <= q < |devices| ==> MatchesSlot(cfg, devices[q], slots[q])
  }

  ghost predicate Expanded(cfg: SimulatorConfig, result: Result<seq<DeviceSpec>, ConfigError>) {
    match result
    case Ok(devices) =>
      && (forall i :: 0 <= i < |cfg.instances| ==> BlockOk(cfg, cfg.instances[i]))
      && MatchesSlots(cfg, devices, Slots(cfg.instances))
      && Numbered(PointsOf(devices))
    case Err(e) =>
      exists i :: 0 <= i < |cfg.instances| && !BlockOk(cfg, cfg.instances[i]) && e == BlockError(cfg, cfg.instances[i]) &&
        forall j :: 0 <= j < i ==> BlockOk(cfg, cfg.instances[j])
  }

  // ---- The loops ----

  ghost predicate CountersAgree(counters: map<string, nat>, points: seq<PointSpec>) {
    forall t :: (if t in counters then counters[t] else 0) == CountType(points, t)
  }

  lemma NumberedGrows(points: seq<PointSpec>, p: PointSpec)
    requires Numbered(points) && p.instance == CountType(points, p.objectType) + 1
    ensures Numbered(points + [p])
  {
    var next := points + [p];
    forall k | 0 <= k < |next|
      ensures next[k].instance == CountType(next[..k], next[k].objectType) + 1
    {
      assert next[..k] == points[..k];
      assert points[..|points|] == points;
    }
  }

  lemma CountersStep(counters: map<string, nat>, points: seq<PointSpec>, p: PointSpec)
    requires CountersAgree(counters, points) && p.instance == CountType(points, p.objectType) + 1
    ensures CountersAgree(counters[p.objectType := p.instance], points + [p])
  {
    assert (points + [p])[..|points|] == points;
  }

  method ExpandDevice(template: seq<TemplatePoint>, counters0: map<string, nat>, ghost emitted: seq<PointSpec>)
    returns (points: seq<PointSpec>, counters: map<string, nat>)
    requires CountersAgree(counters0, emitted) && Numbered(emitted)
    ensures |points| == |template|
    ensures forall k :: 0 <= k < |points| ==> FromTemplate(points[k], template[k])
    ensures CountersAgree(counters, emitted + points) && Numbered(emitted + points)
  {
    hide Numbered;
    points, counters := [], counters0;
    assert emitted + [] == emitted;
    for k := 0 to |template|
      invariant |points| == k
      invariant forall i :: 0 <= i < k ==> FromTemplate(points[i], template[i])
      invariant CountersAgree(counters, emitted + points) && Numbered(emitted + points)
    {
      var tp := template[k];
      var counter := (if tp.objectType in counters then counters[tp.objectType] else 0) + 1;
      var p := PointSpec(tp.name, tp.objectType, tp.units, counter, tp.profile);
      ghost var before := emitted + points;
      NumberedGrows(before, p);
      CountersStep(counters, before, p);
      counters := counters[tp.objectType := counter];
      points := points + [p];
      assert emitted + points == before + [p];
    }
  }

  method Expand(cfg: SimulatorConfig) returns (result: Result<seq<DeviceSpec>, ConfigError>)
    ensures Expanded(cfg, result)
  {
    hide CountersAgree, Numbered, MatchesSlot;
    var devices: seq<DeviceSpec> := [];
    var counters: map<string, nat> := map[];
    NothingEmitted();
    for i := 0 to |cfg.instances|
      invariant forall j :: 0 <= j < i ==> BlockOk(cfg, cfg.instances[j])
      invariant MatchesSlots(cfg, devices, Slots(cfg.instances[..i]))
      invariant CountersAgree(counters, PointsOf(devices)) && Numbered(PointsOf(devices))
    {
      var inst := cfg.instances[i];
      if !BlockOk(cfg, inst) {
        return Err(BlockError(cfg, inst));
      }
      assert cfg.instances[..i + 1][..i] == cfg.instances[..i];
      ghost var done := Slots(cfg.instances[..i]);
      devices, counters := ExpandBlock(cfg, i, devices, counters, done);
    }
    assert cfg.instances[..|cfg.instances|] == cfg.instances;
    result := Ok(devices);
  }

  lemma NothingEmitted()
    ensures CountersAgree(map[], []) && Numbered([])
  {
  }

  method ExpandBlock(cfg: SimulatorConfig, i: nat, devices0: seq<DeviceSpec>, counters0: map<string, nat>,
                     ghost done: seq<Slot>)
    returns (devices: seq<DeviceSpec>, counters: map<string, nat>)
    requires i < |cfg.instances| && BlockOk(cfg, cfg.instances[i])
    requires MatchesSlots(cfg, devices0, done)
    requires CountersAgree(counters0, PointsOf(devices0)) && Numbered(PointsOf(devices0))
    ensures MatchesSlots(cfg, devices, done + BlockSlots(i, cfg.instances[i].count))
    ensures CountersAgree(counters, PointsOf(devices)) && Numbered(PointsOf(devices))
  {
    hide CountersAgree, Numbered, MatchesSlots, MatchesSlot, BlockSlots, PointsOf, DeviceId;
    devices, counters := devices0, counters0;
    var inst := cfg.instances[i];
    NoSlots(i, done);
    for n := 0 to inst.count
      invariant MatchesSlots(cfg, devices, done + BlockSlots(i, n))
      invariant CountersAgree(counters, PointsOf(devices)) && Numbered(PointsOf(devices))
    {
      var points;
      points, counters := ExpandDevice(cfg.templates[inst.template], counters, PointsOf(devices));
      var device := DeviceSpec(DeviceId(cfg, i, n), inst.namePrefix, n + 1, points);
      SlotFilled(cfg, i, n, device);
      OneDeviceMore(cfg, devices, done, i, n, device);
      devices := devices + [device];
    }
  }

  lemma NoSlots(blockIdx: nat, done: seq<Slot>)
    ensures done + BlockSlots(blockIdx, 0) == done
  {
  }

  lemma SlotFilled(cfg: SimulatorConfig, i: nat, n: nat, d: DeviceSpec)
    requires i < |cfg.instances| && cfg.instances[i].template in cfg.templates
    requires d.deviceId == DeviceId(cfg, i, n) && d.namePrefix == cfg.instances[i].namePrefix && d.number == n + 1
    requires |d.points| == |cfg.templates[cfg.instances[i].template]|
    requires forall k :: 0 <= k < |d.points| ==> FromTemplate(d.points[k], cfg.templates[cfg.instances[i].template][k])
    ensures MatchesSlot(cfg, d, Slot(i, n))
  {
  }

  lemma OneDeviceMore(cfg: SimulatorConfig, devices: seq<DeviceSpec>, done: seq<Slot>, i: nat, n: nat, d: DeviceSpec)
    requires MatchesSlots(cfg, devices, done + BlockSlots(i, n)) && MatchesSlot(cfg, d, Slot(i, n))
    ensures MatchesSlots(cfg, devices + [d], done + BlockSlots(i, n + 1))
    ensures PointsOf(devices + [d]) == PointsOf(devices) + d.points
  {
    hide MatchesSlot;
    assert (devices + [d])[..|devices|] == devices;
    assert BlockSlots(i, n + 1) == BlockSlots(i, n) + [Slot(i, n)];
    assert done + BlockSlots(i, n + 1) == done + BlockSlots(i, n) + [Slot(i, n)];
  }

  // ---- Addresses ----

  lemma {:induction false} CountGrows(points: seq<PointSpec>, t: string, j: nat, k: nat)
    requires j <= k <= |points|
    ensures CountType(points[..j], t) <= CountType(points[..k], t)
    decreases k
  {
    if j < k {
      assert points[..k][..k - 1] == points[..k - 1];
      CountGrows(points, t, j, k - 1);
    }
  }

  // Two points of one type never share an instance: later ones get higher numbers.
  lemma InstancesAscend(points: seq<PointSpec>, j: nat, k: nat)
    requires Numbered(points) && j < k < |points| && points[j].objectType == points[k].objectType
    ensures points[j].instance < points[k].instance
  {
    assert points[..j + 1][..j] == points[..j];
    CountGrows(points, points[j].objectType, j + 1, k);
  }

  function InstancesOf(points: seq<PointSpec>, t: string): seq<nat> {
    if points == [] then []
    else
      var p := points[|points| - 1];
      InstancesOf(points[..|points| - 1], t) + if p.objectType == t then [p.instance] else []
  }

  function OneTo(k: nat): seq<nat> {
    if k == 0 then [] else OneTo(k - 1) + [k]
  }

  lemma NumberedFront(points: seq<PointSpec>)
    requires Numbered(points) && points != []
    ensures Numbered(points[..|points| - 1])
  {
    var front := points[..|points| - 1];
    forall k | 0 <= k < |front|
      ensures front[k].instance == CountType(front[..k], front[k].objectType) + 1
    {
      assert front[..k] == points[..k];
    }
  }

  // In emission order over all devices, the instances of a type are exactly 1, 2, ..., k.
  lemma {:induction false} InstancesAreOneToK(points: seq<PointSpec>, t: string)
    requires Numbered(points)
    ensures InstancesOf(points, t) == OneTo(CountType(points, t))
  {
    if points != [] {
      NumberedFront(points);
      InstancesAreOneToK(points[..|points| - 1], t);
    }
  }

  // ---- Device ids ----

  // Block i starts i + 1 block sizes above the base, and its devices count up from there, all modulo 2^32.
  lemma IdsPlaced(cfg: SimulatorConfig, devices: seq<DeviceSpec>, q: nat)
    requires Expanded(cfg, Ok(devices)) && q < |devices|
    ensures var block: nat := if cfg.perTemplateBlock == 0 then 1 else cfg.perTemplateBlock;
      var slot := Slots(cfg.instances)[q];
      devices[q].deviceId == (cfg.deviceIdBase + (slot.blockIdx + 1) * block + slot.n) % 0x1_0000_0000
  {
    assert MatchesSlot(cfg, devices[q], Slots(cfg.instances)[q]);
    hide Slots, Numbered, PointsOf;
  }

  ghost predicate IdsDistinct(devices: seq<DeviceSpec>) {
    forall p, q :: 0 <= p < q < |devices| ==> devices[p].deviceId != devices[q].deviceId
  }

  // How far block j starts above block i, on the circle of 32-bit ids.
  function Gap(cfg: SimulatorConfig, i: nat, j: nat): (g: int)
    requires i <= j
    ensures 0 <= g < U32_LIMIT
  {
    Wrap((j - i) * BlockSize(cfg))
  }

  // No block, placed on the circle of ids, reaches into another one.
  ghost predicate BlocksApart(cfg: SimulatorConfig) {
    forall i, j :: 0 <= i < j < |cfg.instances| && cfg.instances[i].count > 0 && cfg.instances[j].count > 0 ==>
      Gap(cfg, i, j) >= cfg.instances[i].count && Gap(cfg, i, j) + cfg.instances[j].count <= U32_LIMIT
  }

  lemma WrapDifference(x: nat, y: nat)
    requires x <= y
    ensures Wrap(x) == Wrap(y) <==> (y - x) % U32_LIMIT == 0
  {
    assert y - x == U32_LIMIT * (y / U32_LIMIT - x / U32_LIMIT) + (Wrap(y) - Wrap(x));
  }

  // A small step from a point of the circle comes round to the start only at the two ends.
  lemma StepAround(x: nat, step: int)
    requires -U32_LIMIT < step < U32_LIMIT && x + step >= 0
    ensures (x + step) % U32_LIMIT == 0 <==> Wrap(x) + step == 0 || Wrap(x) + step == U32_LIMIT
  {
    assert x + step == U32_LIMIT * (x / U32_LIMIT) + (Wrap(x) + step);
  }

  lemma Distribute(x: nat, y: nat, b: nat)
    ensures (x + y) * b == x * b + y * b
  {
  }

  lemma BlockOffset(b: nat, i: nat, j: nat)
    requires i <= j
    ensures (j + 1) * b == (i + 1) * b + (j - i) * b
    ensures i < j ==> (j - i) * b >= b
  {
    Distribute(i + 1, j - i, b);
    assert i + 1 + (j - i) == j + 1;
    if i < j {
      Distribute(1, j - i - 1, b);
    }
  }

  lemma IdsEqual(cfg: SimulatorConfig, i: nat, n: nat, j: nat, m: nat)
    requires i <= j && n < U32_LIMIT && m < U32_LIMIT && (i == j ==> n <= m) && (i < j ==> n < BlockSize(cfg))
    ensures DeviceId(cfg, i, n) == DeviceId(cfg, j, m) <==>
      Gap(cfg, i, j) + m - n == 0 || Gap(cfg, i, j) + m - n == U32_LIMIT
  {
    var b := BlockSize(cfg);
    BlockOffset(b, i, j);
    var k := (j - i) * b;
    var start := cfg.deviceIdBase + (i + 1) * b;
    assert cfg.deviceIdBase + (j + 1) * b + m == start + k + m;
    hide Wrap;
    WrapDifference(start + n, start + k + m);
    StepAround(k, m - n);
  }

  lemma BlockSlotsListed(blockIdx: nat, count: nat, s: Slot)
    ensures s in BlockSlots(blockIdx, count) <==> s.blockIdx == blockIdx && s.n < count
  {
    if s.blockIdx == blockIdx && s.n < count {
      assert BlockSlots(blockIdx, count)[s.n] == s;
    }
  }

  lemma {:induction false} SlotsListed(instances: seq<InstanceSpec>, s: Slot)
    ensures s in Slots(instances) <==> s.blockIdx < |instances| && s.n < instances[s.blockIdx].count
  {
    if instances != [] {
      var n := |instances| - 1;
      SlotsListed(instances[..n], s);
      BlockSlotsListed(n, instances[n].count, s);
    }
  }

  lemma {:induction false} SlotsAscend(instances: seq<InstanceSpec>, p: nat, q: nat)
    requires p < q < |Slots(instances)|
    ensures var s, t := Slots(instances)[p], Slots(instances)[q];
      s.blockIdx < t.blockIdx || (s.blockIdx == t.blockIdx && s.n < t.n)
  {
    var n := |instances| - 1;
    var front := Slots(instances[..n]);
    if q < |front| {
      SlotsAscend(instances[..n], p, q);
    } else if p < |front| {
      assert front[p] in front;
      SlotsListed(instances[..n], front[p]);
    }
  }

  lemma GapOfSame(cfg: SimulatorConfig, i: nat)
    ensures Gap(cfg, i, i) == 0
  {
  }

  lemma ApartDistinct(cfg: SimulatorConfig, devices: seq<DeviceSpec>)
    requires Fits(cfg) && Expanded(cfg, Ok(devices)) && BlocksApart(cfg)
    ensures IdsDistinct(devices)
  {
    hide DeviceId, Gap, Slots, Numbered;
    var slots := Slots(cfg.instances);
    forall p, q | 0 <= p < q < |devices|
      ensures devices[p].deviceId != devices[q].deviceId
    {
      var s, t := slots[p], slots[q];
      assert s in slots && t in slots;
      SlotsListed(cfg.instances, s);
      SlotsListed(cfg.instances, t);
      SlotsAscend(cfg.instances, p, q);
      assert MatchesSlot(cfg, devices[p], s) && MatchesSlot(cfg, devices[q], t);
      assert BlockOk(cfg, cfg.instances[s.blockIdx]);
      GapOfSame(cfg, s.blockIdx);
      IdsEqual(cfg, s.blockIdx, s.n, t.blockIdx, t.n);
    }
  }

  // Where two blocks meet on the circle, the first device of one shares its id with one of the other.
  lemma MeetingBlocksCollide(cfg: SimulatorConfig, devices: seq<DeviceSpec>, i: nat, j: nat)
    requires Fits(cfg) && Expanded(cfg, Ok(devices))
    requires i < j < |cfg.instances| && cfg.instances[i].count > 0 && cfg.instances[j].count > 0
    requires Gap(cfg, i, j) < cfg.instances[i].count || Gap(cfg, i, j) + cfg.instances[j].count > U32_LIMIT
    ensures !IdsDistinct(devices)
  {
    hide DeviceId, Gap, Slots, Numbered;
    var slots := Slots(cfg.instances);
    assert BlockOk(cfg, cfg.instances[i]);
    var head := Gap(cfg, i, j) < cfg.instances[i].count;
    var s := Slot(i, if head then Gap(cfg, i, j) else 0);
    var t := Slot(j, if head then 0 else U32_LIMIT - Gap(cfg, i, j));
    IdsEqual(cfg, i, s.n, j, t.n);
    SlotsListed(cfg.instances, s);
    SlotsListed(cfg.instances, t);
    var p :| 0 <= p < |slots| && slots[p] == s;
    var q :| 0 <= q < |slots| && slots[q] == t;
    assert MatchesSlot(cfg, devices[p], s) && MatchesSlot(cfg, devices[q], t);
  }

  // The emitted device ids are pairwise distinct exactly when no block reaches into another on the
  // circle of 32-bit ids.
  lemma IdsDistinctExactly(cfg: SimulatorConfig, devices: seq<DeviceSpec>)
    requires Fits(cfg) && Expanded(cfg, Ok(devices))
    ensures IdsDistinct(devices) <==> BlocksApart(cfg)
  {
    hide Expanded;
    if BlocksApart(cfg) {
      ApartDistinct(cfg, devices);
    } else {
      var i, j :| 0 <= i < j < |cfg.instances| && cfg.instances[i].count > 0 && cfg.instances[j].count > 0 &&
        !(Gap(cfg, i, j) >= cfg.instances[i].count && Gap(cfg, i, j) + cfg.instances[j].count <= U32_LIMIT);
      MeetingBlocksCollide(cfg, devices, i, j);
    }
  }

  // In particular they are whenever all blocks together fit on the circle, wherever the base puts them.
  lemma FittingBlocksApart(cfg: SimulatorConfig)
    requires |cfg.instances| * BlockSize(cfg) <= U32_LIMIT
    requires forall i :: 0 <= i < |cfg.instances| ==> cfg.instances[i].count <= BlockSize(cfg)
    ensures BlocksApart(cfg)
  {
    var b := BlockSize(cfg);
    forall i, j | 0 <= i < j < |cfg.instances|
      ensures b <= Gap(cfg, i, j) && Gap(cfg, i, j) + b <= U32_LIMIT
    {
      Distribute(j - i, 1, b);
      Distribute(j - i + 1, |cfg.instances| - (j - i + 1), b);
      BlockOffset(b, i, j);
    }
  }

  // Wrapping can make ids collide: the first and third of three blocks of half the circle.
  lemma WrappedIdsCollide()
    ensures var spec := InstanceSpec("t", "d", 1);
      var cfg := SimulatorConfig(1000, 0x8000_0000, map["t" := []], [spec, spec, spec]);
      Fits(cfg) && DeviceId(cfg, 0, 0) == DeviceId(cfg, 2, 0) && !BlocksApart(cfg)
  {
    var spec := InstanceSpec("t", "d", 1);
    var cfg := SimulatorConfig(1000, 0x8000_0000, map["t" := []], [spec, spec, spec]);
    assert Gap(cfg, 0, 2) == 0;
    assert cfg.instances[0].count > 0 && cfg.instances[2].count > 0;
  }
}
