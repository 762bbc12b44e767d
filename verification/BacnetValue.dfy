// Decoding application-tagged BACnet primitive values.
module BacnetValue {
  import opened Wrappers
  import Bits

  type Byte = b: int | 0 <= b < 256

  const TWO_64: int := 0x1_0000_0000_0000_0000
  const TWO_63: int := 0x8000_0000_0000_0000

  datatype DecodeError = Empty | UnsupportedTag(tag: nat) | Truncated | InvalidUtf8

  // A decoded value, before it is rendered as a number or a text.
  datatype Scalar =
    | Null
    | Bool(b: bool)
    | Unsigned(u: nat)
    | Signed(i: int)
    | Real32(bits32: nat)
    | Real64(bits64: nat)
    | NoCharacters
    | Characters(encoding: Byte, data: seq<Byte>)
    | Enumerated(n: nat)
    | ObjectId(objectType: nat, instance: nat)

  // ---- Tags ----

  function LengthCode(first: Byte): nat {
    Bits.And(first, 0x07)
  }

  function TagNumber(first: Byte): nat {
    Bits.Shr(first, 4)
  }

  lemma FirstByte(first: Byte)
    ensures LengthCode(first) == first % 8 && TagNumber(first) == first / 16
  {
    assert Bits.Pow2(3) == 8;
    assert Bits.Pow2(4) == 16;
    Bits.AndLow(first, 3);
    Bits.ShrDivides(first, 4);
  }

  function ApplicationPayload(bytes: seq<Byte>): Result<seq<Byte>, DecodeError> {
    if bytes == [] then Err(Empty)
    else
      var code := LengthCode(bytes[0]);
      if code <= 4 then
        if 1 + code > |bytes| then Err(Truncated) else Ok(bytes[1..1 + code])
      else if code == 5 then
        if |bytes| < 2 || 2 + bytes[1] > |bytes| then Err(Truncated) else Ok(bytes[2..2 + bytes[1]])
      else Err(UnsupportedTag(TagNumber(bytes[0])))
  }

  // ---- Numbers ----

  function BigEndian(payload: seq<Byte>): (v: int)
    ensures v >= 0
  {
    if payload == [] then 0 else 256 * BigEndian(payload[..|payload| - 1]) + payload[|payload| - 1]
  }

  function Power256(n: nat): (p: int)
    ensures p >= 1
  {
    if n == 0 then 1 else 256 * Power256(n - 1)
  }

  function Negative(payload: seq<Byte>): bool {
    payload != [] && payload[0] >= 128
  }

  function SignPart(negative: bool, n: nat): int {
    if negative then Power256(n) else 0
  }

  function TwosComplement(payload: seq<Byte>): int {
    BigEndian(payload) - SignPart(Negative(payload), |payload|)
  }

  // A 64-bit pattern as a signed integer.
  function AsSigned64(pattern: int): int {
    if pattern >= TWO_63 then pattern - TWO_64 else pattern
  }

  // One step of the decoding loops on 64-bit patterns: shift by a byte, fill in the next.
  function ShiftIn(pattern: int, b: Byte): (next: int)
    requires 0 <= pattern < TWO_64
  {
    Bits.Or(Bits.Shl(pattern, 8, 64), b)
  }

  lemma PowerOfEight()
    ensures Bits.Pow2(8) == 256
  {
    assert Bits.Pow2(4) == 16;
  }

  lemma Powers()
    ensures Bits.Pow2(8) == 256 && Bits.Pow2(64) == TWO_64
  {
    hide Bits.Pow2;
    PowerOfEight();
    Bits.Pow2Adds(8, 8);
    assert Bits.Pow2(16) == 0x1_0000;
    Bits.Pow2Adds(16, 16);
    assert Bits.Pow2(32) == 0x1_0000_0000;
    Bits.Pow2Adds(32, 32);
  }

  lemma ShiftInIs(pattern: int, b: Byte)
    requires 0 <= pattern < TWO_64
    ensures ShiftIn(pattern, b) == (256 * pattern + b) % TWO_64
  {
    Powers();
    hide Bits.Or, Bits.Pow2;
    var low := pattern % 0x100_0000_0000_0000;
    assert Bits.Shl(pattern, 8, 64) == (pattern * 256) % TWO_64 == low * 256;
    Bits.OrAdds(low, 8, b);
  }

  lemma ShiftKeepsResidue(x: int, pattern: int, b: Byte)
    requires pattern == x % TWO_64
    ensures (256 * pattern + b) % TWO_64 == (256 * x + b) % TWO_64
  {
    assert 256 * x + b == TWO_64 * (256 * (x / TWO_64)) + (256 * pattern + b);
  }

  // On the residue of x, a step computes the residue of 256 x + b.
  lemma ShiftStep(x: int, pattern: int, b: Byte)
    requires pattern == x % TWO_64
    ensures ShiftIn(pattern, b) == (256 * x + b) % TWO_64
  {
    ShiftInIs(pattern, b);
    ShiftKeepsResidue(x, pattern, b);
  }

  lemma ResidueNext(value: int, p: seq<Byte>, k: nat)
    requires k < |p| && value == BigEndian(p[..k]) % TWO_64
    ensures 0 <= value < TWO_64 && 0 <= ShiftIn(value, p[k]) < TWO_64
    ensures ShiftIn(value, p[k]) == BigEndian(p[..k + 1]) % TWO_64
  {
    assert p[..k + 1][..k] == p[..k];
    assert BigEndian(p[..k + 1]) == 256 * BigEndian(p[..k]) + p[k];
    hide ShiftIn, BigEndian;
    ShiftStep(BigEndian(p[..k]), value, p[k]);
  }

  method DecodeUnsigned(bytes: seq<Byte>) returns (r: Result<nat, DecodeError>)
    ensures r == UnsignedOf(bytes)
  {
    assert BigEndian([]) % TWO_64 == 0;
    hide ShiftIn, BigEndian, ApplicationPayload;
    var payload := ApplicationPayload(bytes);
    if payload.Err? {
      return Err(payload.error);
    }
    var p := payload.value;
    var value := 0;
    for k := 0 to |p|
      invariant 0 <= value < TWO_64
      invariant value == BigEndian(p[..k]) % TWO_64
    {
      ResidueNext(value, p, k);
      value := ShiftIn(value, p[k]);
    }
    assert p[..|p|] == p;
    r := Ok(value);
  }

  // The payload's big-endian value, modulo the 64 bits of the result.
  function UnsignedOf(bytes: seq<Byte>): Result<nat, DecodeError> {
    var payload := ApplicationPayload(bytes);
    if payload.Err? then Err(payload.error) else Ok(BigEndian(payload.value) % TWO_64)
  }

  // The pattern holds the two's-complement value of the first k bytes, modulo the 64 bits.
  ghost predicate Holds(pattern: int, p: seq<Byte>, negative: bool, k: nat) {
    k <= |p| && 0 <= pattern < TWO_64 && pattern == (BigEndian(p[..k]) - SignPart(negative, k)) % TWO_64
  }

  lemma SignStart(p: seq<Byte>, negative: bool)
    ensures Holds(if negative then TWO_64 - 1 else 0, p, negative, 0)
  {
  }

  lemma SignStep(p: seq<Byte>, k: nat, negative: bool)
    requires k < |p|
    ensures BigEndian(p[..k + 1]) - SignPart(negative, k + 1) == 256 * (BigEndian(p[..k]) - SignPart(negative, k)) + p[k]
  {
    assert p[..k + 1][..k] == p[..k];
  }

  lemma HoldsNext(pattern: int, p: seq<Byte>, negative: bool, k: nat)
    requires k < |p| && Holds(pattern, p, negative, k)
    ensures 0 <= ShiftIn(pattern, p[k]) < TWO_64 && Holds(ShiftIn(pattern, p[k]), p, negative, k + 1)
  {
    hide ShiftIn, BigEndian, SignPart;
    SignStep(p, k, negative);
    ShiftStep(BigEndian(p[..k]) - SignPart(negative, k), pattern, p[k]);
  }

  lemma HoldsAll(pattern: int, p: seq<Byte>)
    requires Holds(pattern, p, Negative(p), |p|)
    ensures AsSigned64(pattern) == AsSigned64(TwosComplement(p) % TWO_64)
  {
    assert p[..|p|] == p;
    hide BigEndian, SignPart;
  }

  method DecodeSigned(bytes: seq<Byte>) returns (r: Result<int, DecodeError>)
    ensures r == SignedOf(bytes)
  {
    hide ShiftIn, BigEndian, ApplicationPayload, AsSigned64, Holds, TwosComplement, Bits.And;
    var payload := ApplicationPayload(bytes);
    if payload.Err? {
      return Err(payload.error);
    }
    var p := payload.value;
    if p == [] {
      NoBytes();
      return Ok(0);
    }
    var negative := Bits.And(p[0], 0x80) != 0;
    SignBit(p[0]);
    SignStart(p, negative);
    // The pattern of -1 or 0.
    var pattern := if negative then TWO_64 - 1 else 0;
    for k := 0 to |p|
      invariant 0 <= pattern < TWO_64 && Holds(pattern, p, negative, k)
    {
      HoldsNext(pattern, p, negative, k);
      pattern := ShiftIn(pattern, p[k]);
    }
    HoldsAll(pattern, p);
    r := Ok(AsSigned64(pattern));
  }

  lemma NoBytes()
    ensures AsSigned64(TwosComplement([]) % TWO_64) == 0
  {
  }

  // The payload's two's-complement value, wrapped into 64 bits.
  function SignedOf(bytes: seq<Byte>): Result<int, DecodeError> {
    var payload := ApplicationPayload(bytes);
    if payload.Err? then Err(payload.error) else Ok(AsSigned64(TwosComplement(payload.value) % TWO_64))
  }

  lemma SignBit(b: Byte)
    ensures Bits.And(b, 0x80) != 0 <==> b >= 128
  {
    assert Bits.Pow2(7) == 128 && Bits.Pow2(8) == 256;
    Bits.AndHigh(b, 7, 8);
  }

  lemma MulMonotone(x: nat, y: nat, m: nat)
    requires x <= y
    ensures x * m <= y * m
  {
  }

  lemma MulPower(x: nat, m: nat)
    ensures x * (256 * m) == 256 * (x * m)
  {
  }

  lemma {:induction false} BigEndianBound(payload: seq<Byte>)
    ensures BigEndian(payload) < Power256(|payload|)
    ensures payload != [] ==>
      payload[0] * Power256(|payload| - 1) <= BigEndian(payload) < (payload[0] + 1) * Power256(|payload| - 1)
  {
    if |payload| > 1 {
      var n := |payload| - 1;
      var front, m := payload[..n], Power256(n - 1);
      BigEndianBound(front);
      assert Power256(n) == 256 * m && Power256(n + 1) == 256 * Power256(n);
      assert BigEndian(payload) == 256 * BigEndian(front) + payload[n];
      hide *;
      MulPower(payload[0], m);
      MulPower(payload[0] as int + 1, m);
    }
  }

  lemma {:induction false} Power256Ascends(m: nat, n: nat)
    requires m <= n
    ensures Power256(m) <= Power256(n)
  {
    if m < n {
      Power256Ascends(m, n - 1);
    }
  }

  lemma Power256Values()
    ensures Power256(8) == TWO_64
  {
    assert Power256(2) == 0x1_0000;
    assert Power256(4) == 0x1_0000_0000;
    assert Power256(6) == 0x1_0000_0000_0000;
  }

  // Up to eight bytes no significant bit is lost: the values are exact.
  lemma UpToEightBytesExact(payload: seq<Byte>)
    requires 1 <= |payload| <= 8
    ensures BigEndian(payload) % TWO_64 == BigEndian(payload)
    ensures AsSigned64(TwosComplement(payload) % TWO_64) == TwosComplement(payload)
  {
    var n := |payload|;
    BigEndianBound(payload);
    Power256Values();
    Power256Ascends(n, 8);
    var m := Power256(n - 1);
    assert Power256(n) == 256 * m;
    assert TwosComplement(payload) == BigEndian(payload) - if payload[0] >= 128 then 256 * m else 0;
    hide BigEndian, Power256, TwosComplement;
    if payload[0] >= 128 {
      MulMonotone(128, payload[0], m);
    } else {
      MulMonotone(payload[0] + 1, 128, m);
    }
  }

  // ---- Object identifiers ----

  // Four bytes: ten bits of type, twenty-two of instance.
  function ObjectIdOf(payload: seq<Byte>): Scalar
    requires |payload| == 4
  {
    var raw := BigEndian(payload);
    ObjectId(Bits.And(Bits.Shr(raw, 22), 0x3FF), Bits.And(raw, 0x3F_FFFF))
  }

  lemma Power22()
    ensures Bits.Pow2(10) == 0x400 && Bits.Pow2(22) == 0x40_0000
  {
    assert Bits.Pow2(5) == 0x20;
    assert Bits.Pow2(10) == 0x400;
    assert Bits.Pow2(11) == 0x800;
    hide Bits.Pow2;
    Bits.Pow2Adds(11, 11);
  }

  lemma ObjectIdSplits(raw: nat)
    requires raw < 0x1_0000_0000
    ensures Bits.And(Bits.Shr(raw, 22), 0x3FF) == raw / 0x40_0000
    ensures Bits.And(raw, 0x3F_FFFF) == raw % 0x40_0000
  {
    hide *;
    Power22();
    Bits.ShrDivides(raw, 22);
    Bits.AndLow(raw, 22);
    Bits.AndLow(raw / 0x40_0000, 10);
  }

  // ---- Scalars ----

  // Which byte strings are valid UTF-8 is left open.
  type Utf8 = seq<Byte> -> bool

  function DecodeCharacters(payload: seq<Byte>, utf8: Utf8): Result<Scalar, DecodeError> {
    if payload == [] then Ok(NoCharacters)
    else if payload[0] in {0, 3, 4, 5} && !utf8(payload[1..]) then Err(InvalidUtf8)
    else Ok(Characters(payload[0], payload[1..]))
  }

  function DecodeScalar(bytes: seq<Byte>, utf8: Utf8): Result<Scalar, DecodeError> {
    if bytes == [] then Err(Empty)
    else
      var tag := TagNumber(bytes[0]);
      if tag == 0 then Ok(Null)
      else if tag == 1 then Ok(Bool(LengthCode(bytes[0]) != 0))
      else if tag !in {2, 3, 4, 5, 7, 9, 12} then Err(UnsupportedTag(tag))
      else
        var payload := ApplicationPayload(bytes);
        if payload.Err? then Err(payload.error)
        else
          var p := payload.value;
          if tag == 2 then Ok(Unsigned(BigEndian(p) % TWO_64))
          else if tag == 3 then Ok(Signed(AsSigned64(TwosComplement(p) % TWO_64)))
          else if tag == 4 then if |p| != 4 then Err(Truncated) else Ok(Real32(BigEndian(p)))
          else if tag == 5 then if |p| != 8 then Err(Truncated) else Ok(Real64(BigEndian(p)))
          else if tag == 7 then DecodeCharacters(p, utf8)
          else if tag == 9 then Ok(Enumerated(BigEndian(p) % TWO_64))
          else if |p| != 4 then Err(Truncated) else Ok(ObjectIdOf(p))
  }

  // ---- The encodings of ANSI/ASHRAE 135, clause 20.2 ----

  // Tags without a decoding are refused by their number, and no bytes as empty.
  lemma OtherTagsRefused(bytes: seq<Byte>, utf8: Utf8)
    ensures bytes == [] ==> DecodeScalar(bytes, utf8) == Err(Empty)
    ensures bytes != [] && bytes[0] / 16 !in {0, 1, 2, 3, 4, 5, 7, 9, 12} ==>
      DecodeScalar(bytes, utf8) == Err(UnsupportedTag(bytes[0] / 16))
  {
    if bytes != [] {
      FirstByte(bytes[0]);
    }
    hide TagNumber, LengthCode, UnsignedOf, SignedOf, DecodeCharacters, ApplicationPayload;
  }

  function ToBytes(v: nat, n: nat): (bytes: seq<Byte>)
    ensures |bytes| == n
  {
    if n == 0 then [] else ToBytes(v / 256, n - 1) + [v % 256]
  }

  // Tag number and length; lengths up to four fit into the first byte.
  function Header(tag: nat, length: nat): seq<Byte>
    requires tag < 16 && length <= 253
  {
    if length <= 4 then [16 * tag + length] else [16 * tag + 5, length]
  }

  // The fewest bytes that hold an unsigned number, and a signed one.
  function UnsignedBytes(v: nat): (n: nat)
    ensures n >= 1 && v < Power256(n)
  {
    if v < 256 then 1 else UnsignedBytes(v / 256) + 1
  }

  function SignedBytes(v: int): (n: nat)
    ensures n >= 1 && -Power256(n) <= 2 * v < Power256(n)
    decreases if v < 0 then -v else v
  {
    if -128 <= v < 128 then 1 else SignedBytes(v / 256) + 1
  }

  predicate Encodable(s: Scalar, utf8: Utf8) {
    match s
    case Unsigned(u) => u < TWO_64
    case Signed(i) => -TWO_63 <= i < TWO_63
    case Real32(b) => b < 0x1_0000_0000
    case Real64(b) => b < TWO_64
    case Characters(encoding, data) => |data| <= 252 && (encoding in {0, 3, 4, 5} ==> utf8(data))
    case Enumerated(n) => n < TWO_64
    case ObjectId(t, i) => t < 0x400 && i < 0x40_0000
    case _ => true
  }

  lemma {:induction false} BytesBack(v: nat, n: nat)
    requires v < Power256(n)
    ensures BigEndian(ToBytes(v, n)) == v
  {
    if n > 0 {
      BytesBack(v / 256, n - 1);
      assert ToBytes(v, n)[..n - 1] == ToBytes(v / 256, n - 1);
    }
  }

  lemma HeaderByte(tag: nat, length: nat)
    requires tag < 16 && length <= 253
    ensures var h := Header(tag, length);
      TagNumber(h[0]) == tag && LengthCode(h[0]) == (if length <= 4 then length else 5)
  {
    FirstByte(Header(tag, length)[0]);
    hide TagNumber, LengthCode;
  }

  // Behind a header, whatever follows, the payload is found again.
  lemma PayloadFound(tag: nat, payload: seq<Byte>, rest: seq<Byte>)
    requires tag < 16 && |payload| <= 253
    ensures var bytes := Header(tag, |payload|) + payload + rest;
      TagNumber(bytes[0]) == tag && ApplicationPayload(bytes) == Ok(payload)
  {
    hide TagNumber, LengthCode;
    var h := Header(tag, |payload|);
    var bytes := h + payload + rest;
    HeaderByte(tag, |payload|);
    assert bytes[0] == h[0] && (|h| == 2 ==> bytes[1] == h[1]);
    assert bytes[|h|..|h| + |payload|] == payload;
  }

  // Cut short anywhere, header or payload, it is refused.
  lemma PrefixRefused(tag: nat, payload: seq<Byte>, n: nat)
    requires tag < 16 && |payload| <= 253 && n < |Header(tag, |payload|) + payload|
    ensures ApplicationPayload((Header(tag, |payload|) + payload)[..n]) == if n == 0 then Err(Empty) else Err(Truncated)
  {
    var h := Header(tag, |payload|);
    var cut := (h + payload)[..n];
    HeaderByte(tag, |payload|);
    hide LengthCode, TagNumber;
    if n > 0 {
      assert cut[0] == h[0];
      assert n > 1 && |payload| > 4 ==> cut[1] == h[1];
    }
  }

  lemma {:induction false} UnsignedFits(v: nat, n: nat)
    requires v < Power256(n) && n >= 1
    ensures UnsignedBytes(v) <= n
  {
    if v >= 256 {
      UnsignedFits(v / 256, n - 1);
    }
  }

  lemma DropByte(v: int, half: int)
    requires -128 * (2 * half) <= v < 128 * (2 * half)
    ensures -half <= v / 256 < half
  {
  }

  lemma OneByte(v: int, n: nat)
    requires -Power256(n) <= 2 * v < Power256(n)
    ensures n == 1 ==> -128 <= v < 128
  {
    assert Power256(1) == 256;
  }

  lemma OneByteLess(v: int, n: nat)
    requires n >= 2 && -Power256(n) <= 2 * v < Power256(n)
    ensures -Power256(n - 1) <= 2 * (v / 256) < Power256(n - 1)
  {
    var half := 128 * Power256(n - 2);
    assert Power256(n) == 256 * Power256(n - 1) && Power256(n - 1) == 2 * half;
    hide Power256;
    DropByte(v, half);
  }

  lemma {:induction false} SignedFits(v: int, n: nat)
    requires -Power256(n) <= 2 * v < Power256(n) && n >= 1
    ensures SignedBytes(v) <= n
    decreases n
  {
    OneByte(v, n);
    hide Power256;
    if !(-128 <= v < 128) {
      OneByteLess(v, n);
      SignedFits(v / 256, n - 1);
    }
  }

  lemma HalfDrops(v: nat, m: nat)
    requires m % 2 == 0
    ensures 2 * v >= 256 * m <==> 2 * (v / 256) >= m
  {
    var half := m / 2;
    assert m == 2 * half;
  }

  lemma FirstOfMany(v: nat, n: nat)
    requires n >= 2
    ensures ToBytes(v, n)[0] == ToBytes(v / 256, n - 1)[0]
  {
  }

  lemma EvenPower(n: nat)
    requires n >= 2
    ensures Power256(n) == 256 * Power256(n - 1) && Power256(n - 1) % 2 == 0
  {
    assert Power256(n - 1) == 2 * (128 * Power256(n - 2));
  }

  lemma FewerBytes(v: nat, m: nat)
    requires v < 256 * m
    ensures v / 256 < m
  {
  }

  lemma OnlyByte(v: nat)
    ensures Power256(1) == 256 && ToBytes(v, 1)[0] == v % 256
  {
  }

  lemma {:induction false} TopBytes(v: nat, n: nat)
    requires 1 <= n && v < Power256(n)
    ensures 2 * v >= Power256(n) <==> ToBytes(v, n)[0] >= 128
  {
    hide *;
    if n == 1 {
      OnlyByte(v);
    } else {
      EvenPower(n);
      FewerBytes(v, Power256(n - 1));
      FirstOfMany(v, n);
      TopBytes(v / 256, n - 1);
      HalfDrops(v, Power256(n - 1));
    }
  }

  // A number written with n bytes of two's complement.
  function SignedToBytes(v: int, n: nat): (bytes: seq<Byte>)
    requires -Power256(n) <= 2 * v < Power256(n)
    ensures |bytes| == n
  {
    ToBytes(if v < 0 then v + Power256(n) else v, n)
  }

  lemma SignedBytesBack(v: int, n: nat)
    requires 1 <= n && -Power256(n) <= 2 * v < Power256(n)
    ensures TwosComplement(SignedToBytes(v, n)) == v
  {
    var w := if v < 0 then v + Power256(n) else v;
    BytesBack(w, n);
    TopBytes(w, n);
  }

  // Decoding inverts every encoding of an unsigned number in up to eight bytes, minimal or not.
  lemma UnsignedRoundTrip(tag: nat, v: nat, n: nat, rest: seq<Byte>)
    requires tag < 16 && 1 <= n <= 8 && v < Power256(n)
    ensures UnsignedOf(Header(tag, n) + ToBytes(v, n) + rest) == Ok(v)
  {
    PayloadFound(tag, ToBytes(v, n), rest);
    BytesBack(v, n);
    UpToEightBytesExact(ToBytes(v, n));
  }

  lemma SignedRoundTrip(tag: nat, v: int, n: nat, rest: seq<Byte>)
    requires tag < 16 && 1 <= n <= 8 && -Power256(n) <= 2 * v < Power256(n)
    ensures SignedOf(Header(tag, n) + SignedToBytes(v, n) + rest) == Ok(v)
  {
    PayloadFound(tag, SignedToBytes(v, n), rest);
    SignedBytesBack(v, n);
    UpToEightBytesExact(SignedToBytes(v, n));
  }

  function EncodeScalar(s: Scalar, utf8: Utf8): seq<Byte>
    requires Encodable(s, utf8)
  {
    match s
    case Null => [0x00]
    case Bool(b) => [if b then 0x11 else 0x10]
    case Unsigned(u) => EncodeUnsigned(2, u)
    case Signed(i) => EncodeSigned(i)
    case Real32(b) => Header(4, 4) + ToBytes(b, 4)
    case Real64(b) => Header(5, 8) + ToBytes(b, 8)
    case NoCharacters => Header(7, 0)
    case Characters(encoding, data) => Header(7, 1 + |data|) + ([encoding] + data)
    case Enumerated(n) => EncodeUnsigned(9, n)
    case ObjectId(t, i) => Header(12, 4) + ToBytes(t * 0x40_0000 + i, 4)
  }

  function EncodeUnsigned(tag: nat, u: nat): seq<Byte>
    requires tag < 16 && u < TWO_64
  {
    Power256Values();
    UnsignedFits(u, 8);
    Header(tag, UnsignedBytes(u)) + ToBytes(u, UnsignedBytes(u))
  }

  function EncodeSigned(i: int): seq<Byte>
    requires -TWO_63 <= i < TWO_63
  {
    Power256Values();
    SignedFits(i, 8);
    Header(3, SignedBytes(i)) + SignedToBytes(i, SignedBytes(i))
  }

  lemma FourBytes()
    ensures Power256(4) == 0x1_0000_0000
  {
    assert Power256(2) == 0x1_0000;
  }

  lemma UnsignedScalar(tag: nat, u: nat, rest: seq<Byte>)
    requires tag < 16 && u < TWO_64
    ensures var bytes := EncodeUnsigned(tag, u) + rest;
      bytes != [] && TagNumber(bytes[0]) == tag && ApplicationPayload(bytes).Ok? && UnsignedOf(bytes) == Ok(u)
  {
    hide TagNumber, ToBytes, UnsignedOf;
    Power256Values();
    UnsignedFits(u, 8);
    var n := UnsignedBytes(u);
    PayloadFound(tag, ToBytes(u, n), rest);
    UnsignedRoundTrip(tag, u, n, rest);
  }

  lemma SignedScalar(i: int, rest: seq<Byte>)
    requires -TWO_63 <= i < TWO_63
    ensures var bytes := EncodeSigned(i) + rest;
      bytes != [] && TagNumber(bytes[0]) == 3 && ApplicationPayload(bytes).Ok? && SignedOf(bytes) == Ok(i)
  {
    hide TagNumber, SignedToBytes, SignedOf;
    Power256Values();
    SignedFits(i, 8);
    var n := SignedBytes(i);
    PayloadFound(3, SignedToBytes(i, n), rest);
    SignedRoundTrip(3, i, n, rest);
  }

  lemma FlagRoundTrip(s: Scalar, utf8: Utf8, rest: seq<Byte>)
    requires s.Null? || s.Bool?
    ensures DecodeScalar(EncodeScalar(s, utf8) + rest, utf8) == Ok(s)
  {
    hide TagNumber, LengthCode;
    FirstByte(EncodeScalar(s, utf8)[0]);
  }

  lemma NumberRoundTrip(s: Scalar, utf8: Utf8, rest: seq<Byte>)
    requires Encodable(s, utf8) && (s.Unsigned? || s.Signed? || s.Enumerated?)
    ensures DecodeScalar(EncodeScalar(s, utf8) + rest, utf8) == Ok(s)
  {
    hide TagNumber, LengthCode, BigEndian, EncodeUnsigned, EncodeSigned, TwosComplement, AsSigned64, ApplicationPayload;
    match s
    case Unsigned(u) => UnsignedScalar(2, u, rest);
    case Enumerated(n) => UnsignedScalar(9, n, rest);
    case Signed(i) => SignedScalar(i, rest);
  }

  lemma RealRoundTrip(s: Scalar, utf8: Utf8, rest: seq<Byte>)
    requires Encodable(s, utf8) && (s.Real32? || s.Real64?)
    ensures DecodeScalar(EncodeScalar(s, utf8) + rest, utf8) == Ok(s)
  {
    hide TagNumber, LengthCode, BigEndian, ToBytes, Power256, ApplicationPayload;
    match s
    case Real32(b) =>
      FourBytes();
      PayloadFound(4, ToBytes(b, 4), rest);
      BytesBack(b, 4);
    case Real64(b) =>
      Power256Values();
      PayloadFound(5, ToBytes(b, 8), rest);
      BytesBack(b, 8);
  }

  lemma CharactersRoundTrip(s: Scalar, utf8: Utf8, rest: seq<Byte>)
    requires Encodable(s, utf8) && (s.NoCharacters? || s.Characters?)
    ensures DecodeScalar(EncodeScalar(s, utf8) + rest, utf8) == Ok(s)
  {
    hide TagNumber, LengthCode, ApplicationPayload;
    match s
    case NoCharacters =>
      assert Header(7, 0) + [] + rest == Header(7, 0) + rest;
      PayloadFound(7, [], rest);
    case Characters(encoding, data) =>
      PayloadFound(7, [encoding] + data, rest);
      assert ([encoding] + data)[1..] == data;
  }

  lemma ObjectIdRoundTrip(s: Scalar, utf8: Utf8, rest: seq<Byte>)
    requires Encodable(s, utf8) && s.ObjectId?
    ensures DecodeScalar(EncodeScalar(s, utf8) + rest, utf8) == Ok(s)
  {
    hide TagNumber, LengthCode, BigEndian, ToBytes, Power256, Bits.And, Bits.Shr, ApplicationPayload;
    var raw := s.objectType * 0x40_0000 + s.instance;
    FourBytes();
    PayloadFound(12, ToBytes(raw, 4), rest);
    BytesBack(raw, 4);
    ObjectIdSplits(raw);
  }

  // Decoding a value's encoding, whatever follows it, gives the value back.
  lemma ScalarRoundTrip(s: Scalar, utf8: Utf8, rest: seq<Byte>)
    requires Encodable(s, utf8)
    ensures DecodeScalar(EncodeScalar(s, utf8) + rest, utf8) == Ok(s)
  {
    hide *;
    if s.Null? || s.Bool? {
      FlagRoundTrip(s, utf8, rest);
    } else if s.Unsigned? || s.Signed? || s.Enumerated? {
      NumberRoundTrip(s, utf8, rest);
    } else if s.Real32? || s.Real64? {
      RealRoundTrip(s, utf8, rest);
    } else if s.NoCharacters? || s.Characters? {
      CharactersRoundTrip(s, utf8, rest);
    } else {
      ObjectIdRoundTrip(s, utf8, rest);
    }
  }
}
