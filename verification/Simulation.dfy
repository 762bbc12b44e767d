// The simulated devices: building them from an expansion, ticking them, looking points up.
module Simulation {
  import opened Wrappers
  import opened Picking
  import opened Profiles
  import Text
  import Expansion

  datatype PointKind = Analog | Binary | MultiStated

  datatype SimulatedPoint = SimulatedPoint(
    name: string, kind: PointKind, objectType: string, instance: nat, units: Option<string>,
    value: PointValue, profile: ProfileState)

  datatype SimulatedDevice = SimulatedDevice(deviceId: nat, points: seq<SimulatedPoint>)

  // ---- Object types ----

  function Lower(s: string): string {
    seq(|s|, i requires 0 <= i < |s| => if 'A' <= s[i] <= 'Z' then (s[i] as int + 32) as char else s[i])
  }

  // The object type as it is compared: trimmed, in lower case.
  function Canonical(objectType: string): string {
    Lower(Text.Trim(objectType))
  }

  function KindOf(objectType: string): Option<PointKind> {
    var t := Canonical(objectType);
    if t == "analog_input" || t == "analog_output" || t == "analog_value" then Some(Analog)
    else if t == "binary_input" || t == "binary_output" || t == "binary_value" then Some(Binary)
    else if t == "multi_state_input" || t == "multi_state_output" || t == "multi_state_value" then Some(MultiStated)
    else None
  }

  lemma LowerWhitespace(s: string, i: nat)
    requires i < |s|
    ensures Text.IsWhitespace(Lower(s)[i]) <==> Text.IsWhitespace(s[i])
  {
  }

  lemma {:induction false} TrimStartEdge(s: string)
    ensures Text.TrimStart(s) != "" ==> !Text.IsWhitespace(Text.TrimStart(s)[0])
  {
    if s != "" && Text.IsWhitespace(s[0]) {
      TrimStartEdge(s[1..]);
    }
  }

  lemma {:induction false} TrimEndEdge(s: string)
    ensures Text.TrimEnd(s) != "" ==> !Text.IsWhitespace(Text.TrimEnd(s)[|Text.TrimEnd(s)| - 1])
    ensures |Text.TrimEnd(s)| <= |s| && Text.TrimEnd(s) == s[..|Text.TrimEnd(s)|]
  {
    if s != "" && Text.IsWhitespace(s[|s| - 1]) {
      TrimEndEdge(s[..|s| - 1]);
    }
  }

  predicate Trimmed(s: string) {
    s == "" || (!Text.IsWhitespace(s[0]) && !Text.IsWhitespace(s[|s| - 1]))
  }

  lemma TrimTrims(s: string)
    ensures Trimmed(Text.Trim(s))
  {
    TrimStartEdge(s);
    TrimEndEdge(Text.TrimStart(s));
  }

  lemma TrimmedStays(s: string)
    requires Trimmed(s)
    ensures Text.Trim(s) == s
  {
  }

  lemma CanonicalIdempotent(t: string)
    ensures Canonical(Canonical(t)) == Canonical(t)
  {
    var s := Text.Trim(t);
    TrimTrims(t);
    if s != "" {
      LowerWhitespace(s, 0);
      LowerWhitespace(s, |s| - 1);
    }
    TrimmedStays(Lower(s));
    assert Lower(Lower(s)) == Lower(s);
  }

  // ---- Building ----

  function PointFromSpec(s: Expansion.PointSpec): Option<SimulatedPoint> {
    var kind := KindOf(s.objectType);
    if kind.None? then None
    else
      var profile := Profiles.StateFromSpec(s.profile);
      Some(SimulatedPoint(s.name, kind.value, Canonical(s.objectType), s.instance, s.units, InitialValue(profile), profile))
  }

  // Points of unknown type are skipped.
  function Kept(specs: seq<Expansion.PointSpec>): seq<SimulatedPoint> {
    if specs == [] then []
    else
      var p := PointFromSpec(specs[|specs| - 1]);
      Kept(specs[..|specs| - 1]) + if p.Some? then [p.value] else []
  }

  function Build(devices: seq<Expansion.DeviceSpec>): seq<SimulatedDevice> {
    seq(|devices|, i requires 0 <= i < |devices| => SimulatedDevice(devices[i].deviceId, Kept(devices[i].points)))
  }

  function AllPoints(devices: seq<SimulatedDevice>): seq<SimulatedPoint> {
    if devices == [] then [] else AllPoints(devices[..|devices| - 1]) + devices[|devices| - 1].points
  }

  predicate KnownType(s: Expansion.PointSpec) {
    KindOf(s.objectType).Some?
  }

  // Whether the point is what the simulation makes of that specification.
  predicate StartsAs(p: SimulatedPoint, s: Expansion.PointSpec) {
    && p.name == s.name && p.instance == s.instance && p.units == s.units
    && p.objectType == Canonical(s.objectType) && Some(p.kind) == KindOf(s.objectType)
    && p.profile.spec == s.profile && p.profile == Profiles.StateFromSpec(s.profile)
    && p.value == InitialValue(p.profile)
  }

  ghost predicate KeptAt(specs: seq<Expansion.PointSpec>, ks: seq<nat>, points: seq<SimulatedPoint>) {
    && Positions(specs, KnownType, ks)
    && |points| == |ks|
    && forall a :: 0 <= a < |ks| ==> ks[a] < |specs| && StartsAs(points[a], specs[ks[a]])
  }

  lemma KeptStep(front: seq<Expansion.PointSpec>, last: Expansion.PointSpec, ks: seq<nat>, points: seq<SimulatedPoint>)
    returns (js: seq<nat>)
    requires KeptAt(front, ks, points)
    ensures KeptAt(front + [last], js, points + if PointFromSpec(last).Some? then [PointFromSpec(last).value] else [])
  {
    PositionsOneMore(front, last, KnownType, ks);
    var p := PointFromSpec(last);
    assert p.Some? <==> KnownType(last);
    assert p.Some? ==> StartsAs(p.value, last);
    var specs, list := front + [last], points + if p.Some? then [p.value] else [];
    js := if KnownType(last) then ks + [|front|] else ks;
    hide PointFromSpec, KnownType, StartsAs, Positions;
    forall a | 0 <= a < |js|
      ensures js[a] < |specs| && StartsAs(list[a], specs[js[a]])
    {
      if a < |ks| {
        assert js[a] == ks[a] && list[a] == points[a] && specs[ks[a]] == front[ks[a]];
      }
    }
  }

  // The points of known type are kept, each once and in order.
  lemma {:induction false} KeptInOrder(specs: seq<Expansion.PointSpec>) returns (ks: seq<nat>)
    ensures KeptAt(specs, ks, Kept(specs))
  {
    if specs == [] {
      ks := [];
    } else {
      var front, last := specs[..|specs| - 1], specs[|specs| - 1];
      var before := KeptInOrder(front);
      assert Kept(specs) == Kept(front) + if PointFromSpec(last).Some? then [PointFromSpec(last).value] else [];
      assert specs == front + [last];
      hide *;
      ks := KeptStep(front, last, before, Kept(front));
    }
  }

  // A device is built under its id, with the points of its specification.
  lemma BuildEach(devices: seq<Expansion.DeviceSpec>, i: nat) returns (ks: seq<nat>)
    requires i < |devices|
    ensures |Build(devices)| == |devices| && Build(devices)[i].deviceId == devices[i].deviceId
    ensures KeptAt(devices[i].points, ks, Build(devices)[i].points)
  {
    ks := KeptInOrder(devices[i].points);
  }

  // ---- Lookup ----

  function FindPoint(points: seq<SimulatedPoint>, objectType: string, instance: nat): Option<SimulatedPoint> {
    if points == [] then None
    else if points[0].objectType == Canonical(objectType) && points[0].instance == instance then Some(points[0])
    else FindPoint(points[1..], objectType, instance)
  }

  function FindDevice(devices: seq<SimulatedDevice>, deviceId: nat): Option<SimulatedDevice> {
    if devices == [] then None
    else if devices[0].deviceId == deviceId then Some(devices[0])
    else FindDevice(devices[1..], deviceId)
  }

  function NeutralValue(devices: seq<SimulatedDevice>, deviceId: nat, objectType: string, instance: nat): Option<PointValue> {
    var device := FindDevice(devices, deviceId);
    if device.None? then None
    else
      var point := FindPoint(device.value.points, objectType, instance);
      if point.None? then None else Some(point.value.value)
  }

  // ---- Ticking ----

  // What a tick of a device meets; each point makes its own random draw.
  datatype Env = Env(
    dt: real, nowSecs: real, occupancy: real, outsideTemp: real, wave: (real, real) -> real, draws: nat -> real)

  ghost predicate ValidEnv(env: Env) {
    forall i :: 0.0 <= env.draws(i) < 1.0
  }

  predicate ValidPoint(p: SimulatedPoint) {
    ValidProfile(p.profile)
  }

  ghost predicate ValidPoints(points: seq<SimulatedPoint>) {
    forall i :: 0 <= i < |points| ==> ValidPoint(points[i])
  }

  function CtxFor(env: Env, siblings: map<string, real>, i: nat): TickCtx {
    TickCtx(env.dt, env.nowSecs, env.occupancy, env.outsideTemp, siblings, env.wave, env.draws(i))
  }

  function TickPoint(p: SimulatedPoint, ctx: TickCtx): (q: SimulatedPoint)
    requires ValidPoint(p) && 0.0 <= ctx.draw < 1.0
    ensures ValidPoint(q)
    ensures q.(value := p.value, profile := p.profile) == p && q.profile.spec == p.profile.spec
  {
    var r := Tick(p.profile, ctx);
    p.(value := r.1, profile := r.0)
  }

  function Seeded(points: seq<SimulatedPoint>): map<string, real> {
    if points == [] then map[]
    else
      var p := points[|points| - 1];
      Seeded(points[..|points| - 1])[p.name := AsReal(p.value)]
  }

  // The sibling values after the first i points have ticked, and those points.
  ghost function Progress(points: seq<SimulatedPoint>, env: Env, i: nat): (r: (map<string, real>, seq<SimulatedPoint>))
    requires i <= |points| && ValidPoints(points) && ValidEnv(env)
    ensures |r.1| == i
  {
    if i == 0 then (Seeded(points), [])
    else
      var before := Progress(points, env, i - 1);
      var q := TickPoint(points[i - 1], CtxFor(env, before.0, i - 1));
      (before.0[q.name := AsReal(q.value)], before.1 + [q])
  }

  ghost function Ticked(points: seq<SimulatedPoint>, env: Env): (r: seq<SimulatedPoint>)
    requires ValidPoints(points) && ValidEnv(env)
    ensures |r| == |points|
  {
    Progress(points, env, |points|).1
  }

  method TickDevice(points: array<SimulatedPoint>, env: Env)
    requires ValidPoints(points[..]) && ValidEnv(env)
    modifies points
    ensures points[..] == Ticked(old(points[..]), env)
  {
    var siblings: map<string, real> := map[];
    for i := 0 to points.Length
      invariant siblings == Seeded(points[..i])
    {
      assert points[..i + 1][..i] == points[..i];
      siblings := siblings[points[i].name := AsReal(points[i].value)];
    }
    assert points[..points.Length] == points[..];
    ghost var was := points[..];
    for i := 0 to points.Length
      invariant (siblings, points[..i]) == Progress(was, env, i)
      invariant points[i..] == was[i..]
    {
      assert points[i] == points[i..][0] == was[i];
      var p := points[i];
      points[i] := TickPoint(p, CtxFor(env, siblings, i));
      siblings := siblings[points[i].name := AsReal(points[i].value)];
      assert points[..i + 1] == points[..i] + [points[i]];
    }
    assert points[..points.Length] == points[..];
  }

  // ---- What a tick sees ----

  // The last point below index n with that name; n when there is none.
  function LastNamed(points: seq<SimulatedPoint>, name: string, n: nat): (k: nat)
    requires n <= |points|
    ensures k <= n && (k < n ==> points[k].name == name)
    ensures forall j :: 0 <= j < n && (k == n || k < j) ==> points[j].name != name
    decreases n
  {
    if n == 0 then 0
    else if points[n - 1].name == name then n - 1
    else
      var k := LastNamed(points, name, n - 1);
      if k == n - 1 then n else k
  }

  lemma {:induction false} SeededNames(points: seq<SimulatedPoint>, name: string)
    ensures var k := LastNamed(points, name, |points|);
      if k == |points| then name !in Seeded(points)
      else name in Seeded(points) && Seeded(points)[name] == AsReal(points[k].value)
  {
    if points != [] {
      var front := points[..|points| - 1];
      SeededNames(front, name);
      LastNamedFront(points, front, name, |front|);
    }
  }

  lemma {:induction false} LastNamedFront(points: seq<SimulatedPoint>, front: seq<SimulatedPoint>, name: string, n: nat)
    requires n <= |front| && front <= points
    ensures LastNamed(points, name, n) == LastNamed(front, name, n)
    decreases n
  {
    if n > 0 {
      LastNamedFront(points, front, name, n - 1);
    }
  }

  // In any tick, point i sees under a name the new value of the last earlier point so named, or, if
  // there is none, the old value of the last point so named; nothing when no point is so named.
  lemma {:induction false} TickSees(points: seq<SimulatedPoint>, env: Env, i: nat, name: string)
    requires i <= |points| && ValidPoints(points) && ValidEnv(env)
    ensures var (siblings, done) := Progress(points, env, i);
      var j, k := LastNamed(points, name, i), LastNamed(points, name, |points|);
      if j < i then name in siblings && siblings[name] == AsReal(done[j].value)
      else if k < |points| then name in siblings && siblings[name] == AsReal(points[k].value)
      else name !in siblings
    decreases i
  {
    if i == 0 {
      SeededNames(points, name);
    } else {
      hide Seeded, TickPoint, CtxFor, AsReal;
      TickSees(points, env, i - 1, name);
    }
  }

  lemma {:induction false} ProgressPrefix(points: seq<SimulatedPoint>, env: Env, i: nat, j: nat)
    requires j <= i <= |points| && ValidPoints(points) && ValidEnv(env)
    ensures Progress(points, env, i).1[..j] == Progress(points, env, j).1
    decreases i
  {
    if j < i {
      ProgressPrefix(points, env, i - 1, j);
    }
  }

  ghost predicate NamesDistinct(points: seq<SimulatedPoint>) {
    forall j, k :: 0 <= j < k < |points| ==> points[j].name != points[k].name
  }

  lemma NamedOnce(points: seq<SimulatedPoint>, s: nat, n: nat)
    requires NamesDistinct(points) && s < |points| && n <= |points|
    ensures LastNamed(points, points[s].name, n) == if s < n then s else n
  {
  }

  // With distinct names, a derived constant takes its source's value of this very tick when it
  // stands after its source, and lags one tick behind when it stands before it.
  lemma DerivedFollowsSource(points: seq<SimulatedPoint>, env: Env, i: nat, s: nat)
    requires ValidPoints(points) && ValidEnv(env) && NamesDistinct(points)
    requires i < |points| && s < |points|
    requires points[i].profile == Stateless(DerivedConstant(points[s].name))
    ensures Ticked(points, env)[i].value ==
      Real(AsReal(if s < i then Ticked(points, env)[s].value else points[s].value))
  {
    var source := points[s].name;
    NamedOnce(points, s, i);
    NamedOnce(points, s, |points|);
    TickSees(points, env, i, source);
    ProgressPrefix(points, env, |points|, i);
    ProgressPrefix(points, env, |points|, i + 1);
    var final := Progress(points, env, |points|).1;
    assert final[i] == final[..i + 1][i];
    if s < i {
      assert final[s] == final[..i][s];
    }
  }

  // Under a name stands the new value of the last point so named before point i, or else the old value
  // of the last point so named; nothing when no point is so named.
  ghost predicate Sees(before: seq<SimulatedPoint>, after: seq<SimulatedPoint>, i: nat, siblings: map<string, real>, name: string)
    requires i <= |before| == |after|
  {
    var j, k := LastNamed(before, name, i), LastNamed(before, name, |before|);
    if j < i then name in siblings && siblings[name] == AsReal(after[j].value)
    else if k < |before| then name in siblings && siblings[name] == AsReal(before[k].value)
    else name !in siblings
  }

  // A tick is, point by point, the tick of its profile: in the building's state, with the point's own
  // draw, and with the sibling values the point sees.
  lemma TicksEachProfile(points: seq<SimulatedPoint>, env: Env, i: nat) returns (ctx: TickCtx)
    requires ValidPoints(points) && ValidEnv(env) && i < |points|
    ensures ctx.dt == env.dt && ctx.nowSecs == env.nowSecs && ctx.wave == env.wave && ctx.draw == env.draws(i)
    ensures ctx.occupancy == env.occupancy && ctx.outsideTemp == env.outsideTemp
    ensures forall name :: Sees(points, Ticked(points, env), i, ctx.siblings, name)
    ensures var q := Ticked(points, env)[i];
      (q.profile, q.value) == Tick(points[i].profile, ctx) &&
      q.(value := points[i].value, profile := points[i].profile) == points[i]
  {
    var (siblings, done) := Progress(points, env, i);
    ctx := CtxFor(env, siblings, i);
    var final := Progress(points, env, |points|).1;
    ProgressPrefix(points, env, |points|, i);
    ProgressPrefix(points, env, |points|, i + 1);
    assert final[i] == final[..i + 1][i];
    assert final[i] == TickPoint(points[i], ctx);
    hide Progress, Tick, LastNamed;
    forall name
      ensures Sees(points, Ticked(points, env), i, siblings, name)
    {
      TickSees(points, env, i, name);
      var j := LastNamed(points, name, i);
      assert j < i ==> final[j] == final[..i][j];
    }
  }

  // ---- What any number of ticks keeps ----

  ghost predicate SameAddresses(before: seq<SimulatedPoint>, after: seq<SimulatedPoint>) {
    && |before| == |after|
    && forall i :: 0 <= i < |before| ==>
         after[i].(value := before[i].value, profile := before[i].profile) == before[i] &&
         after[i].profile.spec == before[i].profile.spec
  }

  lemma {:induction false} ProgressKeeps(points: seq<SimulatedPoint>, env: Env, i: nat)
    requires i <= |points| && ValidPoints(points) && ValidEnv(env)
    ensures ValidPoints(Progress(points, env, i).1) && SameAddresses(points[..i], Progress(points, env, i).1)
    decreases i
  {
    if i > 0 {
      ProgressKeeps(points, env, i - 1);
    }
  }

  ghost function TickedOften(points: seq<SimulatedPoint>, envs: seq<Env>): (r: seq<SimulatedPoint>)
    requires ValidPoints(points) && forall k :: 0 <= k < |envs| ==> ValidEnv(envs[k])
    ensures ValidPoints(r) && SameAddresses(points, r)
  {
    if envs == [] then points
    else
      var before := TickedOften(points, envs[..|envs| - 1]);
      ProgressKeeps(before, envs[|envs| - 1], |before|);
      Ticked(before, envs[|envs| - 1])
  }

  // Over any number of ticks a random walk keeps to its bounds and a multi-state point to its states.
  lemma ValuesStayInRange(points: seq<SimulatedPoint>, envs: seq<Env>, i: nat)
    requires ValidPoints(points) && envs != [] && forall k :: 0 <= k < |envs| ==> ValidEnv(envs[k])
    requires i < |points|
    ensures var p := TickedOften(points, envs)[i];
      && (points[i].profile.Walking? ==>
            p.value.Real? && points[i].profile.spec.min <= p.value.r <= points[i].profile.spec.max)
      && (points[i].profile.Cycling? && points[i].profile.spec.states != [] ==>
            p.value.Unsigned? && p.value.u in points[i].profile.spec.states)
  {
    var n := |envs| - 1;
    var before := TickedOften(points, envs[..n]);
    var after := Progress(before, envs[n], |before|).1;
    ProgressPrefix(before, envs[n], |before|, i + 1);
    assert after[i] == after[..i + 1][i];
    assert before[i].profile.spec == points[i].profile.spec;
  }
}
