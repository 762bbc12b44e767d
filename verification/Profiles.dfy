// The value profiles of simulated points. Floating-point values are modelled as reals.
module Profiles {
  import Bits
  import opened Wrappers

  datatype PointValue = Real(r: real) | Boolean(b: bool) | Unsigned(u: nat)

  function AsReal(v: PointValue): real {
    match v
    case Real(r) => r
    case Boolean(b) => if b then 1.0 else 0.0
    case Unsigned(u) => u as real
  }

  datatype ProfileSpec =
    | Constant(value: real)
    | Sine(base: real, amplitude: real, periodSecs: real, phaseSecs: real)
    | OccupancyLinked(base: real, peakDelta: real, noise: real)
    | TempControl(setpoint: real, gain: real, outsideInfluence: real, noise: real, initial: Option<real>)
    | Integrator(rateSource: string, scale: real)
    | RandomWalk(base: real, step: real, min: real, max: real)
    | BinarySchedule(onWhenOccupancyGt: real)
    | MultiState(states: seq<nat>, changeEverySecs: real)
    | Ramp(start: real, end: real, periodSecs: real)
    | DerivedConstant(from: string)
    | ConstantBool(flag: bool)
    | ConstantState(state: nat)

  // A profile at work: its specification and the variables it updates.
  datatype ProfileState =
    | Stateless(spec: ProfileSpec)
    | Controlled(spec: ProfileSpec, current: real)
    | Accumulating(spec: ProfileSpec, accumulator: real)
    | Walking(spec: ProfileSpec, current: real)
    | Cycling(spec: ProfileSpec, idx: nat, elapsed: real)

  // What one tick sees: time step, clock, building state, the sibling points' values, the sine wave
  // of a period and phase at this moment, and one random draw from [0, 1).
  datatype TickCtx = TickCtx(
    dt: real, nowSecs: real, occupancy: real, outsideTemp: real,
    siblings: map<string, real>, wave: (real, real) -> real, draw: real)

  function Max(a: real, b: real): real {
    if a < b then b else a
  }

  function Clamp(x: real, lo: real, hi: real): real {
    if x < lo then lo else if x > hi then hi else x
  }

  // A draw from [-range, range); nothing when the range is empty.
  function Noise(range: real, draw: real): real {
    if range > 0.0 then 2.0 * range * draw - range else 0.0
  }

  function StateFromSpec(spec: ProfileSpec): ProfileState {
    match spec
    case TempControl(setpoint, _, _, _, initial) =>
      Controlled(spec, if initial.Some? then initial.value else setpoint)
    case Integrator(_, _) => Accumulating(spec, 0.0)
    case RandomWalk(base, _, min, max) => Walking(spec, Clamp(base, min, max))
    case MultiState(_, _) => Cycling(spec, 0, 0.0)
    case _ => Stateless(spec)
  }

  // A state that `StateFromSpec` or a tick can produce. A random walk needs a positive step and ordered
  // bounds: the sampling and clamping it uses abort otherwise.
  predicate ValidProfile(p: ProfileState) {
    match p
    case Controlled(spec, _) => spec.TempControl?
    case Accumulating(spec, _) => spec.Integrator?
    case Walking(spec, current) => spec.RandomWalk? && spec.step > 0.0 && spec.min <= current <= spec.max
    case Cycling(spec, idx, _) =>
      spec.MultiState? && (spec.states == [] ==> idx == 0) && (spec.states != [] ==> idx < |spec.states|)
    case Stateless(spec) => !spec.TempControl? && !spec.Integrator? && !spec.RandomWalk? && !spec.MultiState?
  }

  predicate ValidSpec(spec: ProfileSpec) {
    spec.RandomWalk? ==> spec.step > 0.0 && spec.min <= spec.max
  }

  function StateAt(states: seq<nat>, idx: nat): nat {
    if idx < |states| then states[idx] else 1
  }

  function InitialValue(p: ProfileState): PointValue {
    match p
    case Controlled(_, current) => Real(current)
    case Accumulating(_, accumulator) => Real(accumulator)
    case Walking(_, current) => Real(current)
    case Cycling(spec, _, _) => Unsigned(if spec.MultiState? then StateAt(spec.states, 0) else 1)
    case Stateless(spec) =>
      match spec
      case Constant(v) => Real(v)
      case ConstantBool(b) => Boolean(b)
      case ConstantState(u) => Unsigned(u)
      case Sine(base, _, _, _) => Real(base)
      case OccupancyLinked(base, _, _) => Real(base)
      case BinarySchedule(_) => Boolean(false)
      case Ramp(start, _, _) => Real(start)
      case _ => Real(0.0)
  }

  function Sibling(ctx: TickCtx, name: string): real {
    if name in ctx.siblings then ctx.siblings[name] else 0.0
  }

  function Fraction(now: real, period: real): real
    requires period > 0.0
  {
    now / period - (now / period).Floor as real
  }

  // One tick of a profile: its new state and the point's new value.
  function Tick(p: ProfileState, ctx: TickCtx): (r: (ProfileState, PointValue))
    requires ValidProfile(p) && 0.0 <= ctx.draw < 1.0
    ensures ValidProfile(r.0) && r.0.spec == p.spec
    ensures p.Walking? ==> r.1.Real? && p.spec.min <= r.1.r <= p.spec.max
    ensures p.Cycling? ==> r.1.Unsigned? && (if p.spec.states == [] then r.1.u == 1 else r.1.u in p.spec.states)
  {
    match p
    case Controlled(spec, current) =>
      var target := spec.setpoint + spec.outsideInfluence * (ctx.outsideTemp - spec.setpoint) + ctx.occupancy * 0.5;
      var next := current + (target - current) * spec.gain * Max(ctx.dt, 0.001) + Noise(spec.noise, ctx.draw);
      (Controlled(spec, next), Real(next))
    case Accumulating(spec, accumulator) =>
      var next := accumulator + Sibling(ctx, spec.rateSource) * ctx.dt * spec.scale;
      (Accumulating(spec, next), Real(next))
    case Walking(spec, current) =>
      var next := Clamp(current + Noise(spec.step, ctx.draw), spec.min, spec.max);
      (Walking(spec, next), Real(next))
    case Cycling(spec, idx, elapsed) =>
      var due := elapsed + ctx.dt >= spec.changeEverySecs && spec.states != [];
      var next := if due then (idx + 1) % |spec.states| else idx;
      (Cycling(spec, next, if due then 0.0 else elapsed + ctx.dt), Unsigned(StateAt(spec.states, next)))
    case Stateless(spec) =>
      var value :=
        match spec
        case Constant(v) => Real(v)
        case ConstantBool(b) => Boolean(b)
        case ConstantState(u) => Unsigned(u)
        case Sine(base, amplitude, period, phase) => Real(base + amplitude * ctx.wave(Max(period, 1.0), phase))
        case OccupancyLinked(base, peak, noise) => Real(base + peak * ctx.occupancy + Noise(noise, ctx.draw))
        case BinarySchedule(threshold) => Boolean(ctx.occupancy > threshold)
        case Ramp(start, end, period) => Real(start + (end - start) * Fraction(ctx.nowSecs, Max(period, 1.0)))
        case DerivedConstant(from) => Real(Sibling(ctx, from))
        case _ => Real(0.0);
      (p, value)
  }

  lemma StateFromSpecValid(spec: ProfileSpec)
    ensures ValidProfile(StateFromSpec(spec)) <==> ValidSpec(spec)
  {
  }

  // ---- What the profiles compute ----

  // A profile after n ticks that all see the same.
  function AfterTicks(p: ProfileState, ctx: TickCtx, n: nat): (r: ProfileState)
    requires ValidProfile(p) && 0.0 <= ctx.draw < 1.0
    ensures ValidProfile(r) && r.spec == p.spec
  {
    if n == 0 then p else Tick(AfterTicks(p, ctx, n - 1), ctx).0
  }

  lemma CountUp(n: nat, m: nat)
    requires m > 0
    ensures n % m == m - 1 ==> (n + 1) / m == n / m + 1 && (n + 1) % m == 0
    ensures n % m < m - 1 ==> (n + 1) / m == n / m && (n + 1) % m == n % m + 1
  {
    var q, r := n / m, n % m;
    assert n + 1 == m * q + (r + 1);
    if r == m - 1 {
      assert m * q + m == m * (q + 1);
      Bits.QuotientUnique(n + 1, m, q + 1, 0);
    } else {
      Bits.QuotientUnique(n + 1, m, q, r + 1);
    }
  }

  // m ticks of length dt reach the period of the states, fewer do not.
  ghost predicate ReachedIn(m: nat, dt: real, period: real) {
    m > 0 && dt >= 0.0 && m as real * dt >= period && (m - 1) as real * dt < period
  }

  lemma NotYet(r: nat, m: nat, dt: real, period: real)
    requires ReachedIn(m, dt, period) && r + 1 < m
    ensures r as real * dt + dt == (r + 1) as real * dt < period
  {
    assert (r + 1) as real * dt <= (m - 1) as real * dt;
  }

  lemma CycleStep(p: ProfileState, ctx: TickCtx, i: nat, r: nat, m: nat)
    requires p.Cycling? && ValidProfile(p) && p.spec.states != [] && 0.0 <= ctx.draw < 1.0
    requires ReachedIn(m, ctx.dt, p.spec.changeEverySecs) && r < m
    requires p.idx == i && p.elapsed == r as real * ctx.dt
    ensures var q := Tick(p, ctx).0;
      q.Cycling? && q.idx == (if r == m - 1 then (i + 1) % |p.spec.states| else i) &&
      q.elapsed == (if r == m - 1 then 0.0 else (r + 1) as real * ctx.dt)
  {
    if r < m - 1 {
      NotYet(r, m, ctx.dt, p.spec.changeEverySecs);
    } else {
      assert r as real * ctx.dt + ctx.dt == m as real * ctx.dt;
    }
  }

  lemma NextIndex(k: nat, size: nat)
    requires size > 0
    ensures (k % size + 1) % size == (k + 1) % size
  {
    CountUp(k, size);
    var r := k % size;
    if r == size - 1 {
      assert (r + 1) % size == 0;
    } else {
      assert (r + 1) % size == r + 1;
    }
  }

  lemma ShowsState(p: ProfileState, ctx: TickCtx)
    requires p.Cycling? && ValidProfile(p) && p.spec.states != [] && 0.0 <= ctx.draw < 1.0
    ensures var (q, value) := Tick(p, ctx);
      q.Cycling? && q.spec == p.spec && q.idx < |p.spec.states| && value == Unsigned(p.spec.states[q.idx])
  {
  }

  // Where the states stand after n ticks: n / m states on, and n % m ticks into that state.
  predicate StandsAt(p: ProfileState, spec: ProfileSpec, dt: real, m: nat, n: nat)
    requires m > 0 && spec.MultiState? && spec.states != []
  {
    && p.Cycling? && p.spec == spec
    && p.idx == (n / m) % |spec.states|
    && p.elapsed == (n % m) as real * dt
  }

  lemma StandsStep(p: ProfileState, ctx: TickCtx, m: nat, n: nat)
    requires p.Cycling? && ValidProfile(p) && p.spec.states != [] && 0.0 <= ctx.draw < 1.0
    requires ReachedIn(m, ctx.dt, p.spec.changeEverySecs) && StandsAt(p, p.spec, ctx.dt, m, n)
    ensures var (q, value) := Tick(p, ctx);
      StandsAt(q, p.spec, ctx.dt, m, n + 1) && value == Unsigned(p.spec.states[((n + 1) / m) % |p.spec.states|])
  {
    var size := |p.spec.states|;
    CycleStep(p, ctx, (n / m) % size, n % m, m);
    ShowsState(p, ctx);
    CountUp(n, m);
    NextIndex(n / m, size);
    hide Tick, ValidProfile, ReachedIn;
  }

  lemma StandsFirst(spec: ProfileSpec, dt: real, m: nat)
    requires m > 0 && spec.MultiState? && spec.states != []
    ensures StandsAt(StateFromSpec(spec), spec, dt, m, 0)
  {
    Bits.QuotientUnique(0, m, 0, 0);
    Bits.QuotientUnique(0, |spec.states|, 0, 0);
  }

  // A multi-state profile stays m ticks in each state, the fewest that reach its period, and goes
  // through its states in order, round and round.
  lemma {:induction false} CyclesRound(spec: ProfileSpec, ctx: TickCtx, m: nat, n: nat)
    requires spec.MultiState? && spec.states != [] && 0.0 <= ctx.draw < 1.0
    requires ReachedIn(m, ctx.dt, spec.changeEverySecs)
    ensures StandsAt(AfterTicks(StateFromSpec(spec), ctx, n), spec, ctx.dt, m, n)
    ensures n > 0 ==>
      Tick(AfterTicks(StateFromSpec(spec), ctx, n - 1), ctx).1 == Unsigned(spec.states[(n / m) % |spec.states|])
  {
    StandsFirst(spec, ctx.dt, m);
    hide Tick, ReachedIn, StateFromSpec;
    if n > 0 {
      CyclesRound(spec, ctx, m, n - 1);
      StandsStep(AfterTicks(StateFromSpec(spec), ctx, n - 1), ctx, m, n - 1);
    }
  }

  // What one tick contributes: the source's value for the length of the tick.
  function Amount(ctx: TickCtx, source: string): real {
    Sibling(ctx, source) * ctx.dt
  }

  function Integral(ctxs: seq<TickCtx>, source: string): real {
    if ctxs == [] then 0.0 else Integral(ctxs[..|ctxs| - 1], source) + Amount(ctxs[|ctxs| - 1], source)
  }

  function Scaled(scale: real, x: real): real {
    scale * x
  }

  predicate Drawn(ctxs: seq<TickCtx>) {
    forall k :: 0 <= k < |ctxs| ==> 0.0 <= ctxs[k].draw < 1.0
  }

  function AfterAll(p: ProfileState, ctxs: seq<TickCtx>): (r: ProfileState)
    requires ValidProfile(p) && Drawn(ctxs)
    ensures ValidProfile(r) && r.spec == p.spec
  {
    if ctxs == [] then p else Tick(AfterAll(p, ctxs[..|ctxs| - 1]), ctxs[|ctxs| - 1]).0
  }

  lemma AddScaled(sum: real, rate: real, dt: real, scale: real)
    ensures Scaled(scale, sum) + rate * dt * scale == Scaled(scale, sum + rate * dt)
  {
  }

  lemma IntegratesStep(p: ProfileState, ctx: TickCtx, sum: real)
    requires p.Accumulating? && ValidProfile(p) && 0.0 <= ctx.draw < 1.0 && p.accumulator == Scaled(p.spec.scale, sum)
    ensures var (q, value) := Tick(p, ctx);
      var now := Scaled(p.spec.scale, sum + Amount(ctx, p.spec.rateSource));
      q.Accumulating? && q.accumulator == now && value == Real(now)
  {
    AddScaled(sum, Sibling(ctx, p.spec.rateSource), ctx.dt, p.spec.scale);
    hide Scaled, Sibling;
  }

  lemma IntegralStep(front: seq<TickCtx>, last: TickCtx, source: string)
    ensures Integral(front + [last], source) == Integral(front, source) + Amount(last, source)
  {
    assert (front + [last])[..|front|] == front;
    hide Amount;
  }

  lemma {:induction false} IntegratesFrom(p: ProfileState, ctxs: seq<TickCtx>)
    requires p.Accumulating? && ValidProfile(p) && p.accumulator == 0.0 && Drawn(ctxs)
    ensures var q := AfterAll(p, ctxs);
      q.Accumulating? && q.accumulator == Scaled(p.spec.scale, Integral(ctxs, p.spec.rateSource))
  {
    if ctxs != [] {
      var front, last := ctxs[..|ctxs| - 1], ctxs[|ctxs| - 1];
      hide Tick, Integral, Scaled, Amount;
      IntegratesFrom(p, front);
      assert ctxs == front + [last];
      IntegralStep(front, last, p.spec.rateSource);
      IntegratesStep(AfterAll(p, front), last, Integral(front, p.spec.rateSource));
    }
  }

  // An integrator shows its source's integral over all ticks, scaled.
  lemma Integrates(spec: ProfileSpec, ctxs: seq<TickCtx>, last: TickCtx)
    requires spec.Integrator? && Drawn(ctxs) && 0.0 <= last.draw < 1.0
    ensures Tick(AfterAll(StateFromSpec(spec), ctxs), last).1 ==
      Real(Scaled(spec.scale, Integral(ctxs + [last], spec.rateSource)))
  {
    hide Tick, Integral, AfterAll, Scaled, Amount;
    IntegratesFrom(StateFromSpec(spec), ctxs);
    IntegralStep(ctxs, last, spec.rateSource);
    IntegratesStep(AfterAll(StateFromSpec(spec), ctxs), last, Integral(ctxs, spec.rateSource));
  }

  // A controlled temperature without noise closes in on its target: of its distance, the share gain
  // times the tick's length goes with each tick.
  lemma ClosesIn(spec: ProfileSpec, current: real, ctx: TickCtx)
    requires spec.TempControl? && spec.noise <= 0.0 && 0.0 <= ctx.draw < 1.0
    ensures var target := spec.setpoint + spec.outsideInfluence * (ctx.outsideTemp - spec.setpoint) + ctx.occupancy * 0.5;
      var (next, value) := Tick(Controlled(spec, current), ctx);
      next.Controlled? && value == Real(next.current) &&
      target - next.current == (1.0 - spec.gain * Max(ctx.dt, 0.001)) * (target - current)
  {
    var target := spec.setpoint + spec.outsideInfluence * (ctx.outsideTemp - spec.setpoint) + ctx.occupancy * 0.5;
    Share(target - current, spec.gain, Max(ctx.dt, 0.001));
  }

  lemma Share(distance: real, gain: real, dt: real)
    ensures distance - distance * gain * dt == (1.0 - gain * dt) * distance
  {
  }

  lemma NoiseBounds(range: real, draw: real)
    requires 0.0 <= draw < 1.0
    ensures if range > 0.0 then -range <= Noise(range, draw) < range else Noise(range, draw) == 0.0
  {
    if range > 0.0 {
      assert 0.0 <= range * draw < range;
    }
  }

  // A random walk moves by no more than its step.
  lemma WalksByStep(p: ProfileState, ctx: TickCtx)
    requires p.Walking? && ValidProfile(p) && 0.0 <= ctx.draw < 1.0
    ensures var (next, value) := Tick(p, ctx);
      next.Walking? && value == Real(next.current) && -p.spec.step <= next.current - p.current <= p.spec.step
  {
    NoiseBounds(p.spec.step, ctx.draw);
    hide Noise;
  }

  lemma DivideBack(now: real, period: real)
    requires period > 0.0
    ensures (now / period) * period == now
  {
  }

  lemma FractionIs(now: real, period: real, turn: int, place: real)
    requires period >= 1.0 && turn == (now / period).Floor && place == Fraction(now, period)
    ensures now == (turn as real + place) * period && 0.0 <= place < 1.0
  {
    DivideBack(now, period);
    assert place == now / period - turn as real;
    hide Fraction;
    assert turn as real + place == now / period;
  }

  function RampAt(spec: ProfileSpec, place: real): real
    requires spec.Ramp?
  {
    spec.start + (spec.end - spec.start) * place
  }

  lemma RampValue(spec: ProfileSpec, ctx: TickCtx)
    requires spec.Ramp? && 0.0 <= ctx.draw < 1.0
    ensures ValidProfile(Stateless(spec)) && Max(spec.periodSecs, 1.0) > 0.0
    ensures Tick(Stateless(spec), ctx).1 == Real(RampAt(spec, Fraction(ctx.nowSecs, Max(spec.periodSecs, 1.0))))
  {
    hide Fraction;
  }

  // A ramp stands at the clock's place between two multiples of its period.
  lemma RampsAcross(spec: ProfileSpec, ctx: TickCtx) returns (turn: int, place: real)
    requires spec.Ramp? && 0.0 <= ctx.draw < 1.0
    ensures ctx.nowSecs == (turn as real + place) * Max(spec.periodSecs, 1.0) && 0.0 <= place < 1.0
    ensures ValidProfile(Stateless(spec)) && Tick(Stateless(spec), ctx).1 == Real(RampAt(spec, place))
  {
    RampValue(spec, ctx);
    var period := Max(spec.periodSecs, 1.0);
    assert period >= 1.0;
    hide *;
    turn, place := (ctx.nowSecs / period).Floor, Fraction(ctx.nowSecs, period);
    FractionIs(ctx.nowSecs, period, turn, place);
  }

  // Within the noise of the expected value; exactly that without noise.
  predicate Near(value: real, expected: real, noise: real) {
    if noise > 0.0 then -noise <= value - expected < noise else value == expected
  }

  // The profiles without a memory give their configured value, the wave, or what the building does.
  lemma StatelessValues(spec: ProfileSpec, ctx: TickCtx)
    requires ValidProfile(Stateless(spec)) && 0.0 <= ctx.draw < 1.0
    ensures Tick(Stateless(spec), ctx).0 == Stateless(spec)
    ensures var value := Tick(Stateless(spec), ctx).1;
      && (spec.Constant? ==> value == Real(spec.value) == InitialValue(Stateless(spec)))
      && (spec.ConstantBool? ==> value == Boolean(spec.flag) == InitialValue(Stateless(spec)))
      && (spec.ConstantState? ==> value == Unsigned(spec.state) == InitialValue(Stateless(spec)))
      && (spec.BinarySchedule? ==> value.Boolean? && (value.b <==> ctx.occupancy > spec.onWhenOccupancyGt))
      && (spec.Sine? ==>
            value.Real? && value.r - spec.base == spec.amplitude * ctx.wave(Max(spec.periodSecs, 1.0), spec.phaseSecs))
      && (spec.OccupancyLinked? ==>
            value.Real? && Near(value.r, spec.base + spec.peakDelta * ctx.occupancy, spec.noise))
  {
    if spec.OccupancyLinked? {
      NoiseBounds(spec.noise, ctx.draw);
    }
    hide Noise;
  }

  // The value a point starts with is one it can take: within a walk's bounds, the first of the states.
  lemma StartsInRange(spec: ProfileSpec)
    requires ValidSpec(spec)
    ensures var value := InitialValue(StateFromSpec(spec));
      && (spec.RandomWalk? ==> value.Real? && spec.min <= value.r <= spec.max)
      && (spec.RandomWalk? && spec.min <= spec.base <= spec.max ==> value == Real(spec.base))
      && (spec.MultiState? && spec.states != [] ==> value == Unsigned(spec.states[0]))
      && (spec.TempControl? ==> value == Real(if spec.initial.Some? then spec.initial.value else spec.setpoint))
      && (spec.Integrator? || spec.DerivedConstant? ==> value == Real(0.0))
  {
  }
}
