// The republisher's data model: configured points, poll outcomes, point status.
module Model {
  import opened Wrappers
  import Text

  const U32_LIMIT: nat := 0x1_0000_0000
  const U64_LIMIT: nat := 0x1_0000_0000_0000_0000

  // A JSON value as far as addressing looks into it. A number knows its text and, when it is a
  // non-negative integer of 64 bits, its value; any other value is its text.
  datatype Json = JNull | JString(text: string) | JNumber(text: string, asU64: Option<nat>) | JOther(text: string)

  type Addressing = map<string, Json>

  datatype PointConfig = PointConfig(
    enabled: bool, deviceKey: string, addressing: Addressing, tagPath: string, pollIntervalSecs: nat)

  function JsonScalar(v: Json): string {
    match v
    case JNull => ""
    case JString(t) => t
    case JNumber(t, _) => t
    case JOther(t) => t
  }

  // A point's identity is its addressing alone, rendered as text.
  type PointIdentity = map<string, string>

  function Identity(p: PointConfig): PointIdentity {
    map k | k in p.addressing :: JsonScalar(p.addressing[k])
  }

  // An addressing field as a 32-bit number. A JSON number is truncated to 32 bits; text must fit.
  function AddressU32(p: PointConfig, key: string): Option<nat> {
    if key !in p.addressing then None
    else
      match p.addressing[key]
      case JNumber(_, Some(n)) => Some(n % U32_LIMIT)
      case JString(t) => Text.ParseUnsigned(Text.Trim(t), U32_LIMIT)
      case _ => None
  }

  // The device a point belongs to.
  function DeviceInstance(p: PointConfig): Option<nat> {
    AddressU32(p, "device_instance")
  }

  // A 64-bit float, named by where it came from: the float nearest an integer, a widened 32-bit
  // pattern, or a 64-bit pattern.
  datatype Float = Nearest(value: int) | Widened(bits32: nat) | Pattern(bits64: nat)

  datatype TelemetryValue = Number(value: Float) | Text(text: string)

  datatype PointSample = PointSample(point: PointConfig, value: TelemetryValue, topic: string, timestampMs: int)
  datatype PointFailure = PointFailure(point: PointConfig, error: string)
  datatype PollOutcome = PollOutcome(samples: seq<PointSample>, failures: seq<PointFailure>)
  datatype RefreshOutcome = RefreshOutcome(resolved: seq<nat>, unresolved: seq<nat>)

  datatype PointStatus = PointStatus(
    lastValue: Option<TelemetryValue>, lastSampleMs: Option<int>, stale: bool, consecutiveFailures: nat,
    lastError: Option<string>, lastPublishError: Option<string>)
  {
    function RecordSample(s: PointSample): PointStatus {
      this.(lastValue := Some(s.value), lastSampleMs := Some(s.timestampMs), stale := false,
            consecutiveFailures := 0, lastError := None)
    }

    function RecordReadFailure(error: string): PointStatus {
      this.(stale := true,
            consecutiveFailures := if consecutiveFailures + 1 < U32_LIMIT then consecutiveFailures + 1
                                   else U32_LIMIT - 1,
            lastError := Some(error))
    }

    function RecordPublish(error: Option<string>): PointStatus {
      this.(lastPublishError := error)
    }
  }

  const DEFAULT_STATUS := PointStatus(None, None, true, 0, None, None)

  type StatusTable = map<PointIdentity, PointStatus>

  function StatusOf(table: StatusTable, id: PointIdentity): PointStatus {
    if id in table then table[id] else DEFAULT_STATUS
  }

  // Two points share an identity exactly when their addressing has the same fields with the same
  // texts: a number and its text are alike, and so are null and the empty text; labels play no part.
  lemma SameIdentity(p: PointConfig, q: PointConfig)
    ensures Identity(p) == Identity(q) <==>
      p.addressing.Keys == q.addressing.Keys &&
      forall k :: k in p.addressing && k in q.addressing ==> SameText(p.addressing[k], q.addressing[k])
  {
    if Identity(p) == Identity(q) {
      assert Identity(p).Keys == p.addressing.Keys && Identity(q).Keys == q.addressing.Keys;
      forall k | k in p.addressing && k in q.addressing
        ensures SameText(p.addressing[k], q.addressing[k])
      {
        assert Identity(p)[k] == Identity(q)[k];
      }
    }
  }

  predicate SameText(a: Json, b: Json) {
    (if a.JNull? then "" else a.text) == (if b.JNull? then "" else b.text)
  }

  // A device number below 2^32 may be given as a JSON number or as its text.
  lemma DeviceGivenEitherWay(p: PointConfig, n: nat)
    requires n < U32_LIMIT && "device_instance" in p.addressing
    requires var v := p.addressing["device_instance"];
      v == JString(Text.Decimal(n)) || (v.JNumber? && v.asU64 == Some(n))
    ensures DeviceInstance(p) == Some(n)
  {
    hide Text.Decimal, Text.Trim, Text.ParseUnsigned, Text.DigitsValue;
    Text.DecimalReadsBack(n, U32_LIMIT);
    Text.DecimalTrimmed(n);
    assert n % U32_LIMIT == n;
  }
}
