// The Modbus image of the simulation, and the decoding of its words by a Modbus client.
module ModbusImage {
  import opened Wrappers
  import opened Profiles
  import opened Simulation
  import opened Addressing
  import Bits
  import Model

  const U16_LIMIT: nat := 0x1_0000

  datatype RegEncoding = U16 | F32High | F32Low
  datatype RegCell = RegCell(deviceId: nat, objectType: string, instance: nat, enc: RegEncoding)
  datatype BitCell = BitCell(deviceId: nat, objectType: string, instance: nat)
  datatype ModbusMap = ModbusMap(regs: seq<RegCell>, bits: seq<BitCell>)

  // How 32-bit floats are laid out: the pattern nearest a real, and the one nearest an integer.
  datatype FloatFormat = FloatFormat(ofReal: real -> nat, ofInt: nat -> nat)

  ghost predicate ValidFormat(f: FloatFormat) {
    (forall r :: f.ofReal(r) < Bits.Pow2(32)) && (forall n :: f.ofInt(n) < Bits.Pow2(32))
  }

  // ---- The layout ----

  function CellsOf(deviceId: nat, p: SimulatedPoint): seq<RegCell> {
    match p.kind
    case Analog => [RegCell(deviceId, p.objectType, p.instance, F32High), RegCell(deviceId, p.objectType, p.instance, F32Low)]
    case MultiStated => [RegCell(deviceId, p.objectType, p.instance, U16)]
    case Binary => []
  }

  function BitsOf(deviceId: nat, p: SimulatedPoint): seq<BitCell> {
    if p.kind == Binary then [BitCell(deviceId, p.objectType, p.instance)] else []
  }

  function DeviceRegs(deviceId: nat, points: seq<SimulatedPoint>): seq<RegCell> {
    if points == [] then []
    else DeviceRegs(deviceId, points[..|points| - 1]) + CellsOf(deviceId, points[|points| - 1])
  }

  function DeviceBits(deviceId: nat, points: seq<SimulatedPoint>): seq<BitCell> {
    if points == [] then []
    else DeviceBits(deviceId, points[..|points| - 1]) + BitsOf(deviceId, points[|points| - 1])
  }

  function AllRegs(devices: seq<SimulatedDevice>): seq<RegCell> {
    if devices == [] then []
    else
      var d := devices[|devices| - 1];
      AllRegs(devices[..|devices| - 1]) + DeviceRegs(d.deviceId, d.points)
  }

  function AllBits(devices: seq<SimulatedDevice>): seq<BitCell> {
    if devices == [] then []
    else
      var d := devices[|devices| - 1];
      AllBits(devices[..|devices| - 1]) + DeviceBits(d.deviceId, d.points)
  }

  method BuildModbusMap(devices: seq<SimulatedDevice>) returns (m: ModbusMap)
    ensures m == ModbusMap(AllRegs(devices), AllBits(devices))
  {
    var regs: seq<RegCell> := [];
    var bits: seq<BitCell> := [];
    for i := 0 to |devices|
      invariant regs == AllRegs(devices[..i]) && bits == AllBits(devices[..i])
    {
      assert devices[..i + 1][..i] == devices[..i];
      regs, bits := AddDevice(devices[i], regs, bits);
    }
    assert devices[..|devices|] == devices;
    m := ModbusMap(regs, bits);
  }

  lemma NextPoint(deviceId: nat, points: seq<SimulatedPoint>, k: nat)
    requires k < |points|
    ensures DeviceRegs(deviceId, points[..k + 1]) == DeviceRegs(deviceId, points[..k]) + CellsOf(deviceId, points[k])
    ensures DeviceBits(deviceId, points[..k + 1]) == DeviceBits(deviceId, points[..k]) + BitsOf(deviceId, points[k])
  {
    assert points[..k + 1][..k] == points[..k];
  }

  // The cells of one more point, appended to what is there.
  lemma Appended(deviceId: nat, points: seq<SimulatedPoint>, k: nat, regs0: seq<RegCell>, bits0: seq<BitCell>)
    requires k < |points|
    ensures regs0 + DeviceRegs(deviceId, points[..k + 1]) ==
      regs0 + DeviceRegs(deviceId, points[..k]) + CellsOf(deviceId, points[k])
    ensures bits0 + DeviceBits(deviceId, points[..k + 1]) ==
      bits0 + DeviceBits(deviceId, points[..k]) + BitsOf(deviceId, points[k])
  {
    hide *;
    NextPoint(deviceId, points, k);
  }

  lemma AppendTwo(regs: seq<RegCell>, a: RegCell, b: RegCell)
    ensures regs + [a] + [b] == regs + [a, b]
  {
  }

  method AddDevice(d: SimulatedDevice, regs0: seq<RegCell>, bits0: seq<BitCell>)
    returns (regs: seq<RegCell>, bits: seq<BitCell>)
    ensures regs == regs0 + DeviceRegs(d.deviceId, d.points)
    ensures bits == bits0 + DeviceBits(d.deviceId, d.points)
  {
    regs, bits := regs0, bits0;
    assert DeviceRegs(d.deviceId, d.points[..0]) == [] && DeviceBits(d.deviceId, d.points[..0]) == [];
    hide DeviceRegs, DeviceBits;
    for k := 0 to |d.points|
      invariant regs == regs0 + DeviceRegs(d.deviceId, d.points[..k])
      invariant bits == bits0 + DeviceBits(d.deviceId, d.points[..k])
    {
      var p := d.points[k];
      Appended(d.deviceId, d.points, k, regs0, bits0);
      match p.kind
      case Analog =>
        var high := RegCell(d.deviceId, p.objectType, p.instance, F32High);
        var low := RegCell(d.deviceId, p.objectType, p.instance, F32Low);
        AppendTwo(regs, high, low);
        assert bits + BitsOf(d.deviceId, p) == bits;
        regs := regs + [high];
        regs := regs + [low];
      case MultiStated =>
        assert bits + BitsOf(d.deviceId, p) == bits;
        regs := regs + [RegCell(d.deviceId, p.objectType, p.instance, U16)];
      case Binary =>
        assert regs + CellsOf(d.deviceId, p) == regs;
        bits := bits + [BitCell(d.deviceId, p.objectType, p.instance)];
    }
    assert d.points[..|d.points|] == d.points;
  }

  // Where the registers of point k of device i begin, and likewise its bits.
  function RegStart(devices: seq<SimulatedDevice>, i: nat, k: nat): nat
    requires i < |devices| && k <= |devices[i].points|
  {
    |AllRegs(devices[..i])| + |DeviceRegs(devices[i].deviceId, devices[i].points[..k])|
  }

  function BitStart(devices: seq<SimulatedDevice>, i: nat, k: nat): nat
    requires i < |devices| && k <= |devices[i].points|
  {
    |AllBits(devices[..i])| + |DeviceBits(devices[i].deviceId, devices[i].points[..k])|
  }

  // Points are laid out one right behind the other, devices likewise, from 0 to the image's end.
  lemma RegistersTile(devices: seq<SimulatedDevice>, i: nat, k: nat)
    requires i < |devices| && k <= |devices[i].points|
    ensures RegStart(devices, 0, 0) == 0
    ensures k < |devices[i].points| ==>
      RegStart(devices, i, k + 1) == RegStart(devices, i, k) + |CellsOf(devices[i].deviceId, devices[i].points[k])|
    ensures k == |devices[i].points| ==>
      RegStart(devices, i, k) == if i + 1 < |devices| then RegStart(devices, i + 1, 0) else |AllRegs(devices)|
  {
    var d := devices[i];
    assert devices[..i + 1][..i] == devices[..i];
    assert d.points[..|d.points|] == d.points;
    assert devices[..|devices|] == devices;
    if k < |d.points| {
      assert d.points[..k + 1][..k] == d.points[..k];
    }
  }

  // And likewise for the bits.
  lemma BitsTile(devices: seq<SimulatedDevice>, i: nat, k: nat)
    requires i < |devices| && k <= |devices[i].points|
    ensures BitStart(devices, 0, 0) == 0
    ensures k < |devices[i].points| ==>
      BitStart(devices, i, k + 1) == BitStart(devices, i, k) + |BitsOf(devices[i].deviceId, devices[i].points[k])|
    ensures k == |devices[i].points| ==>
      BitStart(devices, i, k) == if i + 1 < |devices| then BitStart(devices, i + 1, 0) else |AllBits(devices)|
  {
    var d := devices[i];
    assert devices[..i + 1][..i] == devices[..i];
    assert d.points[..|d.points|] == d.points;
    assert devices[..|devices|] == devices;
    if k < |d.points| {
      assert d.points[..k + 1][..k] == d.points[..k];
    }
  }

  ghost predicate StartsWith<T>(s: seq<T>, prefix: seq<T>) {
    prefix <= s
  }

  lemma {:induction false} RegsSplit(devices: seq<SimulatedDevice>, i: nat)
    requires i < |devices|
    ensures var d := devices[i];
      StartsWith(AllRegs(devices), AllRegs(devices[..i]) + DeviceRegs(d.deviceId, d.points))
    ensures var d := devices[i];
      StartsWith(AllBits(devices), AllBits(devices[..i]) + DeviceBits(d.deviceId, d.points))
    decreases |devices|
  {
    hide DeviceRegs, DeviceBits;
    var n := |devices| - 1;
    if i < n {
      RegsSplit(devices[..n], i);
      assert devices[..n][..i] == devices[..i];
    }
  }

  lemma {:induction false} DeviceSplit(deviceId: nat, points: seq<SimulatedPoint>, k: nat)
    requires k < |points|
    ensures StartsWith(DeviceRegs(deviceId, points), DeviceRegs(deviceId, points[..k]) + CellsOf(deviceId, points[k]))
    ensures StartsWith(DeviceBits(deviceId, points), DeviceBits(deviceId, points[..k]) + BitsOf(deviceId, points[k]))
    decreases |points|
  {
    var n := |points| - 1;
    if k < n {
      DeviceSplit(deviceId, points[..n], k);
      assert points[..n][..k] == points[..k];
    }
  }

  lemma PrefixChain<T>(a: seq<T>, b: seq<T>, c: seq<T>, bc: seq<T>, whole: seq<T>)
    requires StartsWith(bc, b + c) && StartsWith(whole, a + bc)
    ensures |a| + |b| + |c| <= |whole| && whole[|a| + |b|..|a| + |b| + |c|] == c
  {
    assert forall n :: 0 <= n < |bc| ==> (a + bc)[|a| + n] == bc[n];
    assert forall n :: 0 <= n < |c| ==> (b + c)[|b| + n] == c[n];
  }

  // A point's own cells stand where the layout says.
  lemma CellsInPlace(devices: seq<SimulatedDevice>, i: nat, k: nat)
    requires i < |devices| && k < |devices[i].points|
    ensures var d := devices[i];
      var cells, start := CellsOf(d.deviceId, d.points[k]), RegStart(devices, i, k);
      start + |cells| <= |AllRegs(devices)| && AllRegs(devices)[start..start + |cells|] == cells
  {
    var d := devices[i];
    assert RegStart(devices, i, k) == |AllRegs(devices[..i])| + |DeviceRegs(d.deviceId, d.points[..k])|;
    hide *;
    RegsSplit(devices, i);
    DeviceSplit(d.deviceId, d.points, k);
    PrefixChain(AllRegs(devices[..i]), DeviceRegs(d.deviceId, d.points[..k]), CellsOf(d.deviceId, d.points[k]),
                DeviceRegs(d.deviceId, d.points), AllRegs(devices));
  }

  lemma BitsInPlace(devices: seq<SimulatedDevice>, i: nat, k: nat)
    requires i < |devices| && k < |devices[i].points|
    ensures var d := devices[i];
      var bits, start := BitsOf(d.deviceId, d.points[k]), BitStart(devices, i, k);
      start + |bits| <= |AllBits(devices)| && AllBits(devices)[start..start + |bits|] == bits
  {
    var d := devices[i];
    assert BitStart(devices, i, k) == |AllBits(devices[..i])| + |DeviceBits(d.deviceId, d.points[..k])|;
    hide *;
    RegsSplit(devices, i);
    DeviceSplit(d.deviceId, d.points, k);
    PrefixChain(AllBits(devices[..i]), DeviceBits(d.deviceId, d.points[..k]), BitsOf(d.deviceId, d.points[k]),
                DeviceBits(d.deviceId, d.points), AllBits(devices));
  }

  // ---- Serving reads ----

  function Bits32(f: FloatFormat, v: Option<PointValue>): nat {
    match v
    case None => f.ofInt(0)
    case Some(Real(r)) => f.ofReal(r)
    case Some(Boolean(b)) => f.ofInt(if b then 1 else 0)
    case Some(Unsigned(u)) => f.ofInt(u)
  }

  // Rounding half up and clamping to 16 bits.
  function Rounded16(v: PointValue): nat {
    var x := AsReal(v);
    if x < 0.0 then 0
    else if (x + 0.5).Floor >= U16_LIMIT then U16_LIMIT - 1
    else (x + 0.5).Floor
  }

  function AsBool(v: PointValue): bool {
    match v
    case Boolean(b) => b
    case Unsigned(u) => u != 0
    case Real(r) => r != 0.0
  }

  function RegWord(devices: seq<SimulatedDevice>, f: FloatFormat, c: RegCell): nat {
    var v := NeutralValue(devices, c.deviceId, c.objectType, c.instance);
    match c.enc
    case U16 => if v.Some? then Rounded16(v.value) else 0
    case F32High => Bits.Shr(Bits32(f, v), 16)
    case F32Low => Bits.And(Bits32(f, v), 0xFFFF)
  }

  function BitValue(devices: seq<SimulatedDevice>, c: BitCell): bool {
    var v := NeutralValue(devices, c.deviceId, c.objectType, c.instance);
    if v.Some? then AsBool(v.value) else false
  }

  function ReadRegisters(m: ModbusMap, devices: seq<SimulatedDevice>, f: FloatFormat, addr: nat, qty: nat): Option<seq<nat>> {
    if addr + qty > |m.regs| then None
    else Some(seq<nat>(qty, i requires 0 <= i < qty => RegWord(devices, f, m.regs[addr + i])))
  }

  function ReadBits(m: ModbusMap, devices: seq<SimulatedDevice>, addr: nat, qty: nat): Option<seq<bool>> {
    if addr + qty > |m.bits| then None
    else Some(seq(qty, i requires 0 <= i < qty => BitValue(devices, m.bits[addr + i])))
  }

  // Reads of adjacent ranges add up to one read of both, which succeeds exactly within the image.
  lemma ReadsCompose(m: ModbusMap, devices: seq<SimulatedDevice>, f: FloatFormat, addr: nat, q1: nat, q2: nat)
    ensures var whole := ReadRegisters(m, devices, f, addr, q1 + q2);
      var first, second := ReadRegisters(m, devices, f, addr, q1), ReadRegisters(m, devices, f, addr + q1, q2);
      && (whole.Some? <==> addr + q1 + q2 <= |m.regs|)
      && (whole.Some? <==> first.Some? && second.Some?)
      && (whole.Some? ==> whole.value == first.value + second.value)
  {
  }

  lemma BitReadsCompose(m: ModbusMap, devices: seq<SimulatedDevice>, addr: nat, q1: nat, q2: nat)
    ensures var whole := ReadBits(m, devices, addr, q1 + q2);
      var first, second := ReadBits(m, devices, addr, q1), ReadBits(m, devices, addr + q1, q2);
      && (whole.Some? <==> addr + q1 + q2 <= |m.bits|)
      && (whole.Some? <==> first.Some? && second.Some?)
      && (whole.Some? ==> whole.value == first.value + second.value)
  {
  }

  // The 16-bit word of a value is the integer nearest it, of two the upper, within 0 to 65535.
  lemma RoundsToNearest(v: PointValue)
    ensures Rounded16(v) < U16_LIMIT
    ensures var x := AsReal(v);
      if x < 0.0 then Rounded16(v) == 0
      else if x >= 65534.5 then Rounded16(v) == 65535
      else -0.5 < Rounded16(v) as real - x <= 0.5
  {
  }

  // ---- Decoding ----

  // Two words as one 32-bit pattern, in either word order.
  function Combined(a: nat, b: nat, little: bool): nat {
    if little then Bits.Or(Bits.Shl(b, 16, 32), a) else Bits.Or(Bits.Shl(a, 16, 32), b)
  }

  function SignedOf(bits: nat, width: nat): int {
    if 2 * bits >= Bits.Pow2(width) then bits - Bits.Pow2(width) else bits
  }

  // A two-word type needs a first register; the decoder aborts without one.
  predicate TwoWords(datatypeName: string) {
    datatypeName == "u32" || datatypeName == "i32" || datatypeName == "f32"
  }

  function Decode(regs: seq<nat>, datatypeName: string, wordOrder: string): Result<Model.Float, string>
    requires TwoWords(datatypeName) ==> regs != []
  {
    var little := wordOrder == "little";
    if datatypeName == "u16" then if regs == [] then Err("no register") else Ok(Model.Nearest(regs[0]))
    else if datatypeName == "i16" then if regs == [] then Err("no register") else Ok(Model.Nearest(SignedOf(regs[0], 16)))
    else if TwoWords(datatypeName) then
      var bits := Combined(regs[0], if |regs| > 1 then regs[1] else 0, little);
      if datatypeName == "u32" then Ok(Model.Nearest(bits))
      else if datatypeName == "i32" then Ok(Model.Nearest(SignedOf(bits, 32)))
      else Ok(Model.Widened(bits))
    else Err("unknown datatype")
  }

  // The number of the signed range with that pattern: the pattern itself, or less one turn.
  predicate SignedReading(v: int, pattern: nat, width: nat) {
    var turn: int := Bits.Pow2(width);
    (v == pattern || v == pattern - turn) && -turn <= 2 * v < turn
  }

  lemma SignedReads(pattern: nat, width: nat)
    requires pattern < Bits.Pow2(width)
    ensures SignedReading(SignedOf(pattern, width), pattern, width)
  {
  }

  // Single registers: the unsigned type gives the word, the signed one its signed reading.
  lemma SingleWordDecodes(words: seq<nat>, wordOrder: string)
    requires words != [] && words[0] < U16_LIMIT
    ensures Decode(words, "u16", wordOrder) == Ok(Model.Nearest(words[0]))
    ensures Decode(words, "i16", wordOrder).Ok? && Decode(words, "i16", wordOrder).value.Nearest?
    ensures SignedReading(Decode(words, "i16", wordOrder).value.value, words[0], 16)
  {
    Pow2Values();
    hide Bits.Pow2;
    SignedReads(words[0], 16);
  }

  lemma CombinedBound(a: nat, b: nat)
    requires a < U16_LIMIT && b < U16_LIMIT
    ensures a * U16_LIMIT + b < Bits.Pow2(32)
  {
    Pow2Values();
  }

  lemma UnsignedPair(a: nat, b: nat)
    ensures Decode([a, b], "u32", "big") == Ok(Model.Nearest(Combined(a, b, false)))
    ensures Decode([b, a], "u32", "little") == Ok(Model.Nearest(Combined(b, a, true)))
  {
    hide Combined, SignedOf;
  }

  lemma SignedPair(a: nat, b: nat)
    ensures Decode([a, b], "i32", "big") == Ok(Model.Nearest(SignedOf(Combined(a, b, false), 32)))
  {
    hide Combined, SignedOf;
  }

  // Two registers, the first the upper in the big word order: likewise, for 32 bits.
  lemma TwoWordsDecode(a: nat, b: nat)
    requires a < U16_LIMIT && b < U16_LIMIT
    ensures Decode([a, b], "u32", "big") == Ok(Model.Nearest(a * U16_LIMIT + b)) == Decode([b, a], "u32", "little")
    ensures Decode([a, b], "i32", "big").Ok? && Decode([a, b], "i32", "big").value.Nearest?
    ensures SignedReading(Decode([a, b], "i32", "big").value.value, a * U16_LIMIT + b, 32)
  {
    hide *;
    UnsignedPair(a, b);
    SignedPair(a, b);
    CombinedIs(a, b);
    CombinedBound(a, b);
    SignedReads(a * U16_LIMIT + b, 32);
  }

  // A missing second register reads as zero; without any, and for other type names, there is no value.
  lemma DecodeRefuses(words: seq<nat>, datatypeName: string, wordOrder: string)
    ensures TwoWords(datatypeName) && |words| == 1 ==>
      Decode(words, datatypeName, wordOrder) == Decode([words[0], 0], datatypeName, wordOrder)
    ensures !TwoWords(datatypeName) ==>
      (Decode(words, datatypeName, wordOrder).Ok? <==> words != [] && datatypeName in {"u16", "i16"})
  {
    hide Combined, SignedOf;
  }

  lemma Pow2Values()
    ensures Bits.Pow2(16) == U16_LIMIT && Bits.Pow2(32) == U16_LIMIT * U16_LIMIT
  {
    assert Bits.Pow2(4) == 16;
    assert Bits.Pow2(8) == 256;
    assert Bits.Pow2(12) == 4096;
    assert Bits.Pow2(16) == U16_LIMIT;
    Bits.Pow2Adds(16, 16);
  }

  lemma CombinedIs(a: nat, b: nat)
    requires a < U16_LIMIT && b < U16_LIMIT
    ensures Combined(a, b, false) == a * U16_LIMIT + b
    ensures Combined(b, a, true) == a * U16_LIMIT + b
  {
    Pow2Values();
    hide Bits.Or, Bits.Pow2;
    assert a * U16_LIMIT < U16_LIMIT * U16_LIMIT;
    Bits.OrAdds(a, 16, b);
  }

  // Splitting a 32-bit pattern into its words and combining them gives it back.
  lemma WordsRoundTrip(bits: nat)
    requires bits < Bits.Pow2(32)
    ensures Bits.Shr(bits, 16) < U16_LIMIT && Bits.And(bits, 0xFFFF) < U16_LIMIT
    ensures Combined(Bits.Shr(bits, 16), Bits.And(bits, 0xFFFF), false) == bits
  {
    Pow2Values();
    Bits.AndLow(bits, 16);
    Bits.ShrDivides(bits, 16);
    hide Bits.And, Bits.Or, Bits.Pow2, Combined;
    CombinedIs(Bits.Shr(bits, 16), Bits.And(bits, 0xFFFF));
  }

  // Swapped words read as little-endian decode like the words read as big-endian.
  lemma WordOrdersAgree(a: nat, b: nat, datatypeName: string)
    requires TwoWords(datatypeName)
    ensures Decode([b, a], datatypeName, "little") == Decode([a, b], datatypeName, "big")
  {
    assert "little" != "big" by {
      assert "little"[0] != "big"[0];
    }
  }

  lemma DecodeFloat(a: nat, b: nat)
    ensures Decode([a, b], "f32", "big") == Ok(Model.Widened(Combined(a, b, false)))
  {
    assert "big" != "little" by {
      assert "big"[0] != "little"[0];
    }
    assert "f32"[0] != "u16"[0] && "f32"[0] != "i16"[0] && "f32"[0] != "u32"[0] && "f32"[0] != "i32"[0];
  }

  // ---- Round trips ----

  // An analog point's two registers, read and decoded as a big-endian float, give back the exact
  // 32-bit pattern of its value.
  lemma AnalogRoundTrip(devices: seq<SimulatedDevice>, f: FloatFormat, i: nat, k: nat)
    requires Addressable(devices) && ValidFormat(f)
    requires i < |devices| && k < |devices[i].points| && devices[i].points[k].kind == Analog
    ensures var words := ReadRegisters(ModbusMap(AllRegs(devices), AllBits(devices)), devices, f, RegStart(devices, i, k), 2);
      words.Some? && |words.value| == 2 &&
      Decode(words.value, "f32", "big") == Ok(Model.Widened(Bits32(f, Some(devices[i].points[k].value))))
    ensures var words := ReadRegisters(ModbusMap(AllRegs(devices), AllBits(devices)), devices, f, RegStart(devices, i, k), 2);
      words.Some? && words.value != [] && (devices[i].points[k].value.Real? ==>
        Decode(words.value, "f32", "big") == Ok(Model.Widened(f.ofReal(devices[i].points[k].value.r))))
  {
    hide Addressable, AllRegs, AllBits, RegStart, NeutralValue, Decode, Bits32, Bits.And, Bits.Shr, Bits.Pow2;
    var p := devices[i].points[k];
    var start := RegStart(devices, i, k);
    CellsInPlace(devices, i, k);
    NeutralFindsEach(devices, i, k);
    var regs := AllRegs(devices);
    assert regs[start] == regs[start..start + 2][0] && regs[start + 1] == regs[start..start + 2][1];
    var bits := Bits32(f, Some(p.value));
    FormatFits(f, p.value);
    RealBits(f, p.value);
    WordsRoundTrip(bits);
    DecodeFloat(Bits.Shr(bits, 16), Bits.And(bits, 0xFFFF));
    var words := ReadRegisters(ModbusMap(regs, AllBits(devices)), devices, f, start, 2);
    assert words.value[0] == RegWord(devices, f, regs[start + 0]) && words.value[1] == RegWord(devices, f, regs[start + 1]);
    assert words.value == [Bits.Shr(bits, 16), Bits.And(bits, 0xFFFF)];
  }

  lemma RealBits(f: FloatFormat, v: PointValue)
    ensures v.Real? ==> Bits32(f, Some(v)) == f.ofReal(v.r)
  {
  }

  lemma FormatFits(f: FloatFormat, v: PointValue)
    requires ValidFormat(f)
    ensures Bits32(f, Some(v)) < Bits.Pow2(32)
  {
  }

  // A multi-state point's register gives back its state, capped at 65535.
  lemma MultiStateRoundTrip(devices: seq<SimulatedDevice>, f: FloatFormat, i: nat, k: nat)
    requires Addressable(devices)
    requires i < |devices| && k < |devices[i].points| && devices[i].points[k].kind == MultiStated
    requires devices[i].points[k].value.Unsigned?
    ensures var words := ReadRegisters(ModbusMap(AllRegs(devices), AllBits(devices)), devices, f, RegStart(devices, i, k), 1);
      var u := devices[i].points[k].value.u;
      words.Some? && Decode(words.value, "u16", "big") == Ok(Model.Nearest(if u < U16_LIMIT then u else U16_LIMIT - 1))
  {
    hide Addressable, AllRegs, AllBits, RegStart, NeutralValue, Bits32, Bits.And, Bits.Shr, Combined;
    var start := RegStart(devices, i, k);
    CellsInPlace(devices, i, k);
    NeutralFindsEach(devices, i, k);
    assert AllRegs(devices)[start] == AllRegs(devices)[start..start + 1][0];
    var u := devices[i].points[k].value.u;
    assert (u as real + 0.5).Floor == u;
    var words := ReadRegisters(ModbusMap(AllRegs(devices), AllBits(devices)), devices, f, start, 1);
    assert words.value[0] == RegWord(devices, f, AllRegs(devices)[start + 0]);
  }

  // A binary point's bit gives back its state.
  lemma BinaryRoundTrip(devices: seq<SimulatedDevice>, i: nat, k: nat)
    requires Addressable(devices)
    requires i < |devices| && k < |devices[i].points| && devices[i].points[k].kind == Binary
    ensures ReadBits(ModbusMap(AllRegs(devices), AllBits(devices)), devices, BitStart(devices, i, k), 1)
      == Some([match devices[i].points[k].value
               case Boolean(b) => b
               case Unsigned(u) => u > 0
               case Real(r) => r < 0.0 || r > 0.0])
  {
    hide Addressable, AllRegs, AllBits, BitStart, NeutralValue;
    var start := BitStart(devices, i, k);
    BitsInPlace(devices, i, k);
    NeutralFindsEach(devices, i, k);
    assert AllBits(devices)[start] == AllBits(devices)[start..start + 1][0];
    var read := ReadBits(ModbusMap(AllRegs(devices), AllBits(devices)), devices, start, 1);
    assert read.value[0] == BitValue(devices, AllBits(devices)[start + 0]);
    assert read.value == [AsBool(devices[i].points[k].value)];
  }

  // What a client reads: its configured address is cut to 16 bits, its data type sets the width.
  function ClientRead(m: ModbusMap, devices: seq<SimulatedDevice>, f: FloatFormat, address: nat,
                      datatypeName: string, wordOrder: string): Result<Model.Float, string>
  {
    var words := ReadRegisters(m, devices, f, address % U16_LIMIT, if TwoWords(datatypeName) then 2 else 1);
    if words.None? then Err("modbus exception") else Decode(words.value, datatypeName, wordOrder)
  }

  lemma ClientReadsFloat(m: ModbusMap, devices: seq<SimulatedDevice>, f: FloatFormat, address: nat)
    requires address < U16_LIMIT
    ensures var words := ReadRegisters(m, devices, f, address, 2);
      words.Some? && |words.value| == 2 ==>
        ClientRead(m, devices, f, address, "f32", "big") == Decode(words.value, "f32", "big")
  {
    hide ReadRegisters, Decode;
  }

  // Within the 65536 addresses the protocol has, a client pointed at an analog point gets its value.
  lemma ClientReadsAnalog(devices: seq<SimulatedDevice>, f: FloatFormat, i: nat, k: nat)
    requires Addressable(devices) && ValidFormat(f)
    requires i < |devices| && k < |devices[i].points| && devices[i].points[k].kind == Analog
    requires RegStart(devices, i, k) < U16_LIMIT
    ensures ClientRead(ModbusMap(AllRegs(devices), AllBits(devices)), devices, f, RegStart(devices, i, k), "f32", "big")
      == Ok(Model.Widened(Bits32(f, Some(devices[i].points[k].value))))
  {
    hide *;
    AnalogRoundTrip(devices, f, i, k);
    ClientReadsFloat(ModbusMap(AllRegs(devices), AllBits(devices)), devices, f, RegStart(devices, i, k));
  }

  // ---- Owners ----

  // Points laid out later start no sooner than an earlier one's registers end.
  lemma {:induction false} RegistersDisjoint(devices: seq<SimulatedDevice>, i: nat, k: nat, j: nat, m: nat)
    requires i <= j < |devices| && k < |devices[i].points| && m <= |devices[j].points| && (i == j ==> k < m)
    ensures RegStart(devices, i, k) + |CellsOf(devices[i].deviceId, devices[i].points[k])| <= RegStart(devices, j, m)
    decreases j, m
  {
    hide CellsOf, RegStart;
    RegistersTile(devices, i, k);
    if i == j {
      RegistersTile(devices, j, m - 1);
      if k < m - 1 {
        RegistersDisjoint(devices, i, k, j, m - 1);
      }
    } else if m > 0 {
      RegistersTile(devices, j, m - 1);
      RegistersDisjoint(devices, i, k, j, m - 1);
    } else {
      var n := |devices[j - 1].points|;
      RegistersTile(devices, j - 1, n);
      RegistersDisjoint(devices, i, k, j - 1, n);
    }
  }

  lemma {:induction false} BitsDisjoint(devices: seq<SimulatedDevice>, i: nat, k: nat, j: nat, m: nat)
    requires i <= j < |devices| && k < |devices[i].points| && m <= |devices[j].points| && (i == j ==> k < m)
    ensures BitStart(devices, i, k) + |BitsOf(devices[i].deviceId, devices[i].points[k])| <= BitStart(devices, j, m)
    decreases j, m
  {
    hide BitsOf, BitStart;
    BitsTile(devices, i, k);
    if i == j {
      BitsTile(devices, j, m - 1);
      if k < m - 1 {
        BitsDisjoint(devices, i, k, j, m - 1);
      }
    } else if m > 0 {
      BitsTile(devices, j, m - 1);
      BitsDisjoint(devices, i, k, j, m - 1);
    } else {
      var n := |devices[j - 1].points|;
      BitsTile(devices, j - 1, n);
      BitsDisjoint(devices, i, k, j - 1, n);
    }
  }
}
