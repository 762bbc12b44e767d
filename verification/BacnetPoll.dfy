// Polling BACnet points: one ReadPropertyMultiple per device, single reads where that fails.
module BacnetPoll {
  import opened Wrappers
  import opened Model
  import opened Picking
  import Text

  // ---- Requests ----

  datatype Key = Key(objectType: nat, instance: nat, property: nat)

  datatype Request = Request(point: PointConfig, device: nat, key: Key)

  // What the BACnet library knows of names and identifiers.
  datatype Names = Names(objectType: string -> Option<nat>, property: string -> Option<nat>,
                         validObject: (nat, nat) -> bool)

  function AddressText(p: PointConfig, field: string): Option<string> {
    if field in p.addressing && Text.Trim(JsonScalar(p.addressing[field])) != ""
    then Some(JsonScalar(p.addressing[field])) else None
  }

  function FromPoint(p: PointConfig, names: Names): Result<Request, string> {
    var typeText := if AddressText(p, "object_type").Some? then AddressText(p, "object_type").value else "";
    var propText := if AddressText(p, "property").Some? then AddressText(p, "property").value else "present_value";
    var instance := if AddressU32(p, "object_instance").Some? then AddressU32(p, "object_instance").value else 0;
    if DeviceInstance(p).None? then Err("missing device_instance")
    else if names.objectType(typeText).None? then Err("unknown object type '" + typeText + "'")
    else if names.property(propText).None? then Err("unknown property '" + propText + "'")
    else if !names.validObject(names.objectType(typeText).value, instance) then Err("invalid object identifier")
    else
      Ok(Request(p, DeviceInstance(p).value,
                 Key(names.objectType(typeText).value, instance, names.property(propText).value)))
  }

  // The addressing the browse gives the point of an object.
  function BrowsedAddressing(device: nat, typeName: string, instance: nat): Addressing {
    map["device_instance" := JNumber(Text.Decimal(device), Some(device)),
        "object_type" := JString(typeName),
        "object_instance" := JNumber(Text.Decimal(instance), Some(instance)),
        "property" := JString("present_value")]
  }

  // Polling a browsed point reads the present value of the very object it was browsed from.
  lemma BrowsedPointReadsItsObject(p: PointConfig, names: Names, device: nat, objectType: nat, typeName: string,
                                   instance: nat, presentValue: nat)
    requires p.addressing == BrowsedAddressing(device, typeName, instance)
    requires device < U32_LIMIT && instance < U32_LIMIT && Text.Trim(typeName) != ""
    requires names.objectType(typeName) == Some(objectType) && names.property("present_value") == Some(presentValue)
    requires names.validObject(objectType, instance)
    ensures FromPoint(p, names) == Ok(Request(p, device, Key(objectType, instance, presentValue)))
  {
    PresentValueStays();
    assert DeviceInstance(p) == Some(device) && AddressU32(p, "object_instance") == Some(instance);
    assert AddressText(p, "object_type") == Some(typeName) && AddressText(p, "property") == Some("present_value");
    hide DeviceInstance, AddressU32, AddressText;
  }

  lemma PresentValueStays()
    ensures Text.Trim("present_value") == "present_value"
  {
    var s := "present_value";
    assert Text.TrimStart(s) == s;
    assert Text.TrimEnd(s) == s;
  }

  // Left out, the instance is 0 and the property the present value.
  lemma DefaultsApply(p: PointConfig, q: PointConfig, names: Names)
    requires q.addressing == p.addressing - {"object_instance", "property"}
    requires AddressU32(p, "object_instance") == Some(0) && AddressText(p, "property") == Some("present_value")
    ensures FromPoint(q, names) ==
      match FromPoint(p, names)
      case Ok(request) => Ok(request.(point := q))
      case Err(reason) => Err(reason)
  {
    assert AddressU32(q, "object_instance") == None && AddressText(q, "property") == None;
    assert DeviceInstance(q) == DeviceInstance(p) && AddressText(q, "object_type") == AddressText(p, "object_type");
    hide Text.Trim, Text.ParseUnsigned;
  }

  // ---- The device's answers ----

  type Bytes = seq<nat>

  datatype Element = Element(property: nat, value: Option<Bytes>)

  datatype AccessResult = AccessResult(objectType: nat, instance: nat, elements: seq<Element>)

  datatype Answer = Answer(key: Key, value: Option<Bytes>)

  // Whatever the devices answer: to the one multiple read of a device, and to the single read of its
  // k-th request.
  datatype Network = Network(multiple: nat -> Result<seq<AccessResult>, string>,
                             single: (nat, nat) -> Result<Bytes, string>,
                             decode: Bytes -> Result<TelemetryValue, string>)

  function Tagged(r: AccessResult): seq<Answer> {
    seq(|r.elements|, k requires 0 <= k < |r.elements| =>
      Answer(Key(r.objectType, r.instance, r.elements[k].property), r.elements[k].value))
  }

  function Flat(results: seq<AccessResult>): seq<Answer> {
    if results == [] then [] else Flat(results[..|results| - 1]) + Tagged(results[|results| - 1])
  }

  // The first request with that key; the number of requests when there is none.
  function FirstMatch(requests: seq<Request>, key: Key): (k: nat)
    ensures k <= |requests| && (k < |requests| ==> requests[k].key == key)
    ensures forall j :: 0 <= j < k ==> requests[j].key != key
  {
    if requests == [] then 0
    else
      var n := |requests| - 1;
      var k := FirstMatch(requests[..n], key);
      if k < n || requests[n].key == key then k else n + 1
  }

  // The request an answer is a value for.
  function Hit(requests: seq<Request>, a: Answer): Option<nat> {
    if FirstMatch(requests, a.key) < |requests| && a.value.Some? then Some(FirstMatch(requests, a.key)) else None
  }

  function Sample(p: PointConfig, value: TelemetryValue, nowMs: int): PointSample {
    PointSample(p, value, "", nowMs)
  }

  // ---- The multiple read ----

  datatype RpmError = Refused(reason: string) | Undecodable(reason: string) | Missing(returned: nat, asked: nat)

  // One answer: its sample is added, or its value cannot be decoded.
  function Take(requests: seq<Request>, samples: seq<PointSample>, a: Answer, net: Network, nowMs: int)
    : Result<seq<PointSample>, RpmError>
  {
    if Hit(requests, a).None? then Ok(samples)
    else
      match net.decode(a.value.value)
      case Err(reason) => Err(Undecodable(reason))
      case Ok(value) => Ok(samples + [Sample(requests[Hit(requests, a).value].point, value, nowMs)])
  }

  // The samples of the answers, up to the first one that cannot be decoded.
  function Decoded(requests: seq<Request>, answers: seq<Answer>, net: Network, nowMs: int)
    : Result<seq<PointSample>, RpmError>
  {
    if answers == [] then Ok([])
    else
      var n := |answers| - 1;
      var before := Decoded(requests, answers[..n], net, nowMs);
      if before.Err? then before else Take(requests, before.value, answers[n], net, nowMs)
  }

  function Seen(requests: seq<Request>, answers: seq<Answer>): set<nat> {
    if answers == [] then {}
    else
      var n := |answers| - 1;
      var before := Seen(requests, answers[..n]);
      match Hit(requests, answers[n])
      case None => before
      case Some(k) => before + {k}
  }

  function MultipleRead(device: nat, requests: seq<Request>, net: Network, nowMs: int)
    : Result<seq<PointSample>, RpmError>
  {
    match net.multiple(device)
    case Err(reason) => Err(Refused(reason))
    case Ok(results) =>
      var samples := Decoded(requests, Flat(results), net, nowMs);
      if samples.Ok? && |Seen(requests, Flat(results))| != |requests|
      then Err(Missing(|Seen(requests, Flat(results))|, |requests|)) else samples
  }

  lemma FlatStep(results: seq<AccessResult>, i: nat)
    requires i < |results|
    ensures Flat(results[..i + 1]) == Flat(results[..i]) + Tagged(results[i])
  {
    assert results[..i + 1][..i] == results[..i];
  }

  lemma {:induction false} FlatGrows(results: seq<AccessResult>, i: nat)
    requires i <= |results|
    ensures Flat(results[..i]) <= Flat(results)
  {
    if i == |results| {
      assert results[..i] == results;
    } else {
      var n := |results| - 1;
      FlatGrows(results[..n], i);
      assert results[..n][..i] == results[..i];
    }
  }

  lemma {:induction false} ErrorSticks(requests: seq<Request>, prefix: seq<Answer>, answers: seq<Answer>,
                                       net: Network, nowMs: int)
    requires prefix <= answers && Decoded(requests, prefix, net, nowMs).Err?
    ensures Decoded(requests, answers, net, nowMs) == Decoded(requests, prefix, net, nowMs)
  {
    if prefix != answers {
      ErrorSticks(requests, prefix, answers[..|answers| - 1], net, nowMs);
    }
  }

  // One answer, taken by the inner loop.
  lemma AnswerTaken(requests: seq<Request>, done: seq<Answer>, a: Answer, net: Network, nowMs: int)
    ensures Seen(requests, done + [a]) ==
      Seen(requests, done) + if Hit(requests, a).Some? then {Hit(requests, a).value} else {}
    ensures Decoded(requests, done, net, nowMs).Ok? ==>
      Decoded(requests, done + [a], net, nowMs) == Take(requests, Decoded(requests, done, net, nowMs).value, a, net, nowMs)
  {
    var all := done + [a];
    assert all[..|all| - 1] == done;
    hide Hit, Take;
  }

  method ReadGroupRpm(device: nat, requests: seq<Request>, net: Network, nowMs: int)
    returns (r: Result<seq<PointSample>, RpmError>)
    ensures r == MultipleRead(device, requests, net, nowMs)
  {
    hide Hit, FirstMatch, Decoded, Seen, Sample;
    var ack := net.multiple(device);
    if ack.Err? {
      return Err(Refused(ack.error));
    }
    var results := ack.value;
    ghost var flat := Flat(results);
    var samples, seen: set<nat> := [], {};
    NothingTaken(requests, net, nowMs);
    for i := 0 to |results|
      invariant Decoded(requests, Flat(results[..i]), net, nowMs) == Ok(samples)
      invariant seen == Seen(requests, Flat(results[..i]))
    {
      var elements := results[i].elements;
      ghost var before := Flat(results[..i]);
      FlatStep(results, i);
      FlatGrows(results, i + 1);
      assert before + Tagged(results[i])[..0] == before;
      for j := 0 to |elements|
        invariant Decoded(requests, before + Tagged(results[i])[..j], net, nowMs) == Ok(samples)
        invariant seen == Seen(requests, before + Tagged(results[i])[..j])
      {
        ghost var taken := before + Tagged(results[i])[..j];
        var answer := Answer(Key(results[i].objectType, results[i].instance, elements[j].property), elements[j].value);
        assert before + Tagged(results[i])[..j + 1] == taken + [answer];
        AnswerTaken(requests, taken, answer, net, nowMs);
        var hit := Hit(requests, answer);
        if hit.Some? {
          HitBound(requests, answer);
          var value := net.decode(answer.value.value);
          if value.Err? {
            assert before + Tagged(results[i])[..j + 1] <= Flat(results[..i + 1]) <= flat;
            ErrorSticks(requests, before + Tagged(results[i])[..j + 1], flat, net, nowMs);
            return Err(Undecodable(value.error));
          }
          seen := seen + {hit.value};
          samples := samples + [Sample(requests[hit.value].point, value.value, nowMs)];
        }
      }
      assert Tagged(results[i])[..|elements|] == Tagged(results[i]);
    }
    assert results[..|results|] == results;
    if |seen| != |requests| {
      return Err(Missing(|seen|, |requests|));
    }
    return Ok(samples);
  }

  lemma NothingTaken(requests: seq<Request>, net: Network, nowMs: int)
    ensures Flat([]) == [] && Decoded(requests, [], net, nowMs) == Ok([]) && Seen(requests, []) == {}
  {
  }

  lemma HitBound(requests: seq<Request>, a: Answer)
    ensures Hit(requests, a).Some? ==>
      a.value.Some? && Hit(requests, a).value < |requests| && requests[Hit(requests, a).value].key == a.key
  {
  }

  // ---- When the multiple read succeeds ----

  ghost predicate DistinctKeys(requests: seq<Request>) {
    forall i, j :: 0 <= i < j < |requests| ==> requests[i].key != requests[j].key
  }

  // Some answer carries a value for that key.
  ghost predicate Answered(answers: seq<Answer>, key: Key) {
    exists j :: 0 <= j < |answers| && answers[j].key == key && answers[j].value.Some?
  }

  ghost predicate AllAnswered(requests: seq<Request>, answers: seq<Answer>) {
    forall i :: 0 <= i < |requests| ==> Answered(answers, requests[i].key)
  }

  // Every value for some request can be decoded.
  ghost predicate AllDecodable(requests: seq<Request>, answers: seq<Answer>, net: Network) {
    forall j :: 0 <= j < |answers| && Hit(requests, answers[j]).Some? ==> net.decode(answers[j].value.value).Ok?
  }

  lemma AnsweredSplits(front: seq<Answer>, a: Answer, key: Key)
    ensures Answered(front + [a], key) <==> Answered(front, key) || (a.key == key && a.value.Some?)
  {
    var all := front + [a];
    assert all[|front|] == a;
    if Answered(front, key) {
      var j :| 0 <= j < |front| && front[j].key == key && front[j].value.Some?;
      assert all[j].key == key && all[j].value.Some?;
    }
  }

  // A request is seen exactly when its key is answered and no earlier request has that key.
  lemma {:induction false} SeenExactly(requests: seq<Request>, answers: seq<Answer>, i: nat)
    ensures i in Seen(requests, answers) <==>
      i < |requests| && FirstMatch(requests, requests[i].key) == i && Answered(answers, requests[i].key)
  {
    if answers == [] {
      assert i !in Seen(requests, answers);
    } else {
      var n := |answers| - 1;
      var front, a := answers[..n], answers[n];
      assert answers == front + [a];
      SeenExactly(requests, front, i);
      HitBound(requests, a);
      if i < |requests| {
        AnsweredSplits(front, a, requests[i].key);
      }
      hide Answered, FirstMatch;
    }
  }

  function Below(n: nat): (all: set<nat>)
    ensures |all| == n && forall i: nat :: i in all <==> i < n
  {
    if n == 0 then {}
    else Below(n - 1) + {n - 1}
  }

  lemma SubsetCount<T>(a: set<T>, b: set<T>)
    requires a <= b
    ensures |a| == |b| <==> a == b
  {
    if a != b {
      assert |b| == |a| + |b - a| by {
        assert b == a + (b - a);
      }
      assert b - a != {};
    }
  }

  // By counting, all requests were seen exactly when their keys are distinct and all answered.
  lemma AllSeenExactly(requests: seq<Request>, answers: seq<Answer>)
    ensures |Seen(requests, answers)| == |requests| <==> DistinctKeys(requests) && AllAnswered(requests, answers)
  {
    var seen, all := Seen(requests, answers), Below(|requests|);
    forall i: nat
      ensures i in seen <==>
        i < |requests| && FirstMatch(requests, requests[i].key) == i && Answered(answers, requests[i].key)
    {
      SeenExactly(requests, answers, i);
    }
    hide Seen, Answered;
    SubsetCount(seen, all);
    assert seen == all <==> forall i: nat :: i < |requests| ==> i in seen;
  }

  lemma {:induction false} DecodedExactly(requests: seq<Request>, answers: seq<Answer>, net: Network, nowMs: int)
    ensures Decoded(requests, answers, net, nowMs).Ok? <==> AllDecodable(requests, answers, net)
  {
    if answers != [] {
      var n := |answers| - 1;
      DecodedExactly(requests, answers[..n], net, nowMs);
      hide Hit;
      HitBound(requests, answers[n]);
      assert forall j :: 0 <= j < n ==> answers[..n][j] == answers[j];
    }
  }

  // The multiple read succeeds exactly when the device answers, every request of the group has its
  // own key and a value, and every such value decodes. Two requests with one key always fall back.
  lemma RpmSucceedsExactly(device: nat, requests: seq<Request>, net: Network, nowMs: int)
    ensures MultipleRead(device, requests, net, nowMs).Ok? <==>
      && net.multiple(device).Ok?
      && DistinctKeys(requests)
      && AllAnswered(requests, Flat(net.multiple(device).value))
      && AllDecodable(requests, Flat(net.multiple(device).value), net)
  {
    if net.multiple(device).Ok? {
      var flat := Flat(net.multiple(device).value);
      hide Decoded, Seen, Flat, DistinctKeys, AllAnswered, AllDecodable;
      DecodedExactly(requests, flat, net, nowMs);
      AllSeenExactly(requests, flat);
    }
  }

  // ---- What a device's group reports ----

  function PointsIn(requests: seq<Request>): multiset<PointConfig> {
    if requests == [] then multiset{} else PointsIn(requests[..|requests| - 1]) + multiset{requests[|requests| - 1].point}
  }

  function SamplePoints(samples: seq<PointSample>): multiset<PointConfig> {
    if samples == [] then multiset{} else SamplePoints(samples[..|samples| - 1]) + multiset{samples[|samples| - 1].point}
  }

  function FailurePoints(failures: seq<PointFailure>): multiset<PointConfig> {
    if failures == [] then multiset{}
    else FailurePoints(failures[..|failures| - 1]) + multiset{failures[|failures| - 1].point}
  }

  // The points reported, each as often as it is.
  function Reported(o: PollOutcome): multiset<PointConfig> {
    SamplePoints(o.samples) + FailurePoints(o.failures)
  }

  function SingleRead(device: nat, k: nat, net: Network): Result<TelemetryValue, string> {
    match net.single(device, k)
    case Err(reason) => Err(reason)
    case Ok(bytes) => net.decode(bytes)
  }

  function SingleReads(device: nat, requests: seq<Request>, net: Network, nowMs: int): PollOutcome {
    if requests == [] then PollOutcome([], [])
    else
      var n := |requests| - 1;
      var before := SingleReads(device, requests[..n], net, nowMs);
      match SingleRead(device, n, net)
      case Ok(value) => before.(samples := before.samples + [Sample(requests[n].point, value, nowMs)])
      case Err(reason) => before.(failures := before.failures + [PointFailure(requests[n].point, reason)])
  }

  method ReadGroupIndividual(device: nat, requests: seq<Request>, net: Network, nowMs: int)
    returns (samples: seq<PointSample>, failures: seq<PointFailure>)
    ensures PollOutcome(samples, failures) == SingleReads(device, requests, net, nowMs)
  {
    samples, failures := [], [];
    for k := 0 to |requests|
      invariant PollOutcome(samples, failures) == SingleReads(device, requests[..k], net, nowMs)
    {
      assert requests[..k + 1][..k] == requests[..k];
      var result := SingleRead(device, k, net);
      match result {
        case Ok(value) =>
          samples := samples + [Sample(requests[k].point, value, nowMs)];
        case Err(reason) =>
          failures := failures + [PointFailure(requests[k].point, reason)];
      }
    }
    assert requests[..|requests|] == requests;
  }

  // The read of request k on its own gives that value, or fails for that reason.
  ghost predicate ReadsTo(device: nat, k: nat, net: Network, value: TelemetryValue) {
    net.single(device, k).Ok? && net.decode(net.single(device, k).value) == Ok(value)
  }

  ghost predicate ReadFails(device: nat, k: nat, net: Network, reason: string) {
    net.single(device, k) == Err(reason) ||
    (net.single(device, k).Ok? && net.decode(net.single(device, k).value) == Err(reason))
  }

  ghost predicate SamplesRead(device: nat, requests: seq<Request>, net: Network, nowMs: int,
                              ks: seq<nat>, samples: seq<PointSample>)
  {
    && Ascending(ks) && |samples| == |ks|
    && forall a :: 0 <= a < |ks| ==>
         ks[a] < |requests| && samples[a] == PointSample(requests[ks[a]].point, samples[a].value, "", nowMs) &&
         ReadsTo(device, ks[a], net, samples[a].value)
  }

  ghost predicate FailuresRead(device: nat, requests: seq<Request>, net: Network,
                               js: seq<nat>, failures: seq<PointFailure>)
  {
    && Ascending(js) && |failures| == |js|
    && forall a :: 0 <= a < |js| ==>
         js[a] < |requests| && failures[a] == PointFailure(requests[js[a]].point, failures[a].error) &&
         ReadFails(device, js[a], net, failures[a].error)
  }

  // Every request is in exactly one of the two lists.
  ghost predicate Split(n: nat, ks: seq<nat>, js: seq<nat>) {
    forall k: nat :: (k < n <==> k in ks || k in js) && !(k in ks && k in js)
  }

  // The fallback reports request after request: each once, as a sample with the value its own read
  // decodes to or as a failure with its own read's error, both lists in request order.
  lemma {:induction false} SinglesReadEachTheirOwn(device: nat, requests: seq<Request>, net: Network, nowMs: int)
    returns (ks: seq<nat>, js: seq<nat>)
    ensures Split(|requests|, ks, js)
    ensures SamplesRead(device, requests, net, nowMs, ks, SingleReads(device, requests, net, nowMs).samples)
    ensures FailuresRead(device, requests, net, js, SingleReads(device, requests, net, nowMs).failures)
  {
    if requests == [] {
      ks, js := [], [];
    } else {
      var n: nat := |requests| - 1;
      ks, js := SinglesReadEachTheirOwn(device, requests[..n], net, nowMs);
      forall k: nat | k in ks || k in js
        ensures k < n
      {
      }
      match SingleRead(device, n, net)
      case Ok(value) =>
        AppendPosition(ks, n);
        ks := ks + [n];
      case Err(reason) =>
        AppendPosition(js, n);
        js := js + [n];
    }
  }

  lemma SampleAdds(samples: seq<PointSample>, s: PointSample)
    ensures SamplePoints(samples + [s]) == SamplePoints(samples) + multiset{s.point}
  {
    assert (samples + [s])[..|samples|] == samples;
  }

  lemma FailureAdds(failures: seq<PointFailure>, f: PointFailure)
    ensures FailurePoints(failures + [f]) == FailurePoints(failures) + multiset{f.point}
  {
    assert (failures + [f])[..|failures|] == failures;
  }

  // The fallback reports every request once.
  lemma {:induction false} SinglesReportEachOnce(device: nat, requests: seq<Request>, net: Network, nowMs: int)
    ensures Reported(SingleReads(device, requests, net, nowMs)) == PointsIn(requests)
  {
    if requests == [] {
      assert SingleReads(device, requests, net, nowMs) == PollOutcome([], []);
    } else {
      var n := |requests| - 1;
      var before := SingleReads(device, requests[..n], net, nowMs);
      SinglesReportEachOnce(device, requests[..n], net, nowMs);
      assert PointsIn(requests) == PointsIn(requests[..n]) + multiset{requests[n].point};
      hide PointsIn, SamplePoints, FailurePoints, SingleRead;
      match SingleRead(device, n, net)
      case Ok(value) => SampleAdds(before.samples, Sample(requests[n].point, value, nowMs));
      case Err(reason) => FailureAdds(before.failures, PointFailure(requests[n].point, reason));
    }
  }

  // Requests as they are made: each from its point.
  ghost predicate Made(requests: seq<Request>, names: Names) {
    forall i :: 0 <= i < |requests| ==> FromPoint(requests[i].point, names) == Ok(requests[i])
  }

  lemma {:induction false} PointsInMembers(requests: seq<Request>, p: PointConfig)
    ensures p in PointsIn(requests) <==> exists i :: 0 <= i < |requests| && requests[i].point == p
  {
    if requests != [] {
      PointsInMembers(requests[..|requests| - 1], p);
    }
  }

  lemma {:induction false} SamplePointsMembers(samples: seq<PointSample>, p: PointConfig)
    ensures p in SamplePoints(samples) <==> exists i :: 0 <= i < |samples| && samples[i].point == p
  {
    if samples != [] {
      SamplePointsMembers(samples[..|samples| - 1], p);
    }
  }

  // Distinct keys come from distinct points, so each is there once.
  lemma {:induction false} PointsOnce(requests: seq<Request>, names: Names, p: PointConfig)
    requires DistinctKeys(requests) && Made(requests, names)
    ensures PointsIn(requests)[p] <= 1
  {
    if requests != [] {
      var n := |requests| - 1;
      PointsOnce(requests[..n], names, p);
      PointsInMembers(requests[..n], p);
      hide FromPoint;
    }
  }

  // The decoded samples are of requests of the group, and every request seen has one.
  lemma {:induction false} DecodedPoints(requests: seq<Request>, answers: seq<Answer>, net: Network, nowMs: int, p: PointConfig)
    requires Decoded(requests, answers, net, nowMs).Ok?
    ensures p in SamplePoints(Decoded(requests, answers, net, nowMs).value) <==>
      exists k :: k in Seen(requests, answers) && k < |requests| && requests[k].point == p
  {
    if answers == [] {
      assert Decoded(requests, answers, net, nowMs) == Ok([]);
    } else {
      var n := |answers| - 1;
      DecodedPoints(requests, answers[..n], net, nowMs, p);
      HitBound(requests, answers[n]);
      hide Hit;
      if Hit(requests, answers[n]).Some? {
        var value := net.decode(answers[n].value.value).value;
        SampleAdds(Decoded(requests, answers[..n], net, nowMs).value,
                   Sample(requests[Hit(requests, answers[n]).value].point, value, nowMs));
      }
    }
  }

  // Where all requests were seen, the decoded samples are of exactly the points of the group.
  lemma AllSeenPoints(requests: seq<Request>, answers: seq<Answer>, net: Network, nowMs: int, p: PointConfig)
    requires DistinctKeys(requests) && AllAnswered(requests, answers)
    requires Decoded(requests, answers, net, nowMs).Ok?
    ensures p in SamplePoints(Decoded(requests, answers, net, nowMs).value) <==> p in PointsIn(requests)
  {
    DecodedPoints(requests, answers, net, nowMs, p);
    PointsInMembers(requests, p);
    forall k: nat
      ensures k in Seen(requests, answers) <==> k < |requests|
    {
      SeenExactly(requests, answers, k);
    }
    hide Decoded, Seen, Flat, FirstMatch, DistinctKeys, AllAnswered, PointsIn, SamplePoints;
  }

  // The sample reports a request with that answer's key, with the value the answer decodes to.
  ghost predicate AnsweredBy(requests: seq<Request>, a: Answer, net: Network, nowMs: int, s: PointSample) {
    && (exists r :: 0 <= r < |requests| && requests[r].key == a.key && requests[r].point == s.point)
    && a.value.Some? && net.decode(a.value.value) == Ok(s.value)
    && s == PointSample(s.point, s.value, "", nowMs)
  }

  ghost predicate AnswersListed(requests: seq<Request>, answers: seq<Answer>, net: Network, nowMs: int,
                                ks: seq<nat>, samples: seq<PointSample>)
  {
    && |samples| == |ks|
    && forall a :: 0 <= a < |ks| ==> ks[a] < |answers| && AnsweredBy(requests, answers[ks[a]], net, nowMs, samples[a])
  }

  // A value for a key of the group.
  ghost predicate Wanted(requests: seq<Request>, a: Answer) {
    a.value.Some? && exists r :: 0 <= r < |requests| && requests[r].key == a.key
  }

  lemma WantedHits(requests: seq<Request>, a: Answer)
    ensures Wanted(requests, a) <==> Hit(requests, a).Some?
  {
    var k := FirstMatch(requests, a.key);
    if k < |requests| {
      assert requests[k].key == a.key;
    }
  }

  // The multiple read reports the values for keys of the group, one sample each, in the order of the
  // answers.
  lemma {:induction false} DecodedReadsAnswers(requests: seq<Request>, answers: seq<Answer>, net: Network, nowMs: int)
    returns (ks: seq<nat>)
    requires Decoded(requests, answers, net, nowMs).Ok?
    ensures Ascending(ks) && forall k: nat :: k in ks <==> k < |answers| && Wanted(requests, answers[k])
    ensures AnswersListed(requests, answers, net, nowMs, ks, Decoded(requests, answers, net, nowMs).value)
  {
    if answers == [] {
      ks := [];
    } else {
      var n: nat := |answers| - 1;
      var front, a := answers[..n], answers[n];
      assert forall k :: 0 <= k < n ==> front[k] == answers[k];
      ks := DecodedReadsAnswers(requests, front, net, nowMs);
      WantedHits(requests, a);
      HitBound(requests, a);
      hide Hit, Wanted, AnsweredBy, FirstMatch;
      forall k: nat | k in ks
        ensures k < n
      {
      }
      if Hit(requests, a).Some? {
        var k := Hit(requests, a).value;
        var s := Sample(requests[k].point, net.decode(a.value.value).value, nowMs);
        SampleAnswers(requests, a, k, net, nowMs);
        AppendPosition(ks, n);
        ks := ks + [n];
      }
    }
  }

  lemma SampleAnswers(requests: seq<Request>, a: Answer, k: nat, net: Network, nowMs: int)
    requires k < |requests| && requests[k].key == a.key && a.value.Some? && net.decode(a.value.value).Ok?
    ensures AnsweredBy(requests, a, net, nowMs, Sample(requests[k].point, net.decode(a.value.value).value, nowMs))
  {
  }

  // A multiple read that succeeds reports every request, and nothing else.
  lemma MultipleReportsAll(device: nat, requests: seq<Request>, names: Names, net: Network, nowMs: int)
    requires Made(requests, names) && MultipleRead(device, requests, net, nowMs).Ok?
    ensures var points := SamplePoints(MultipleRead(device, requests, net, nowMs).value);
      PointsIn(requests) <= points && (forall p :: p in points ==> p in PointsIn(requests))
  {
    var flat := Flat(net.multiple(device).value);
    var samples := MultipleRead(device, requests, net, nowMs).value;
    RpmSucceedsExactly(device, requests, net, nowMs);
    assert Decoded(requests, flat, net, nowMs) == Ok(samples);
    hide *;
    forall p
      ensures p in SamplePoints(samples) <==> p in PointsIn(requests)
      ensures PointsIn(requests)[p] <= 1
    {
      AllSeenPoints(requests, flat, net, nowMs, p);
      PointsOnce(requests, names, p);
    }
  }

  // How many answers carry a value for that key.
  function Values(answers: seq<Answer>, key: Key): nat {
    if answers == [] then 0
    else
      var a := answers[|answers| - 1];
      Values(answers[..|answers| - 1], key) + if a.key == key && a.value.Some? then 1 else 0
  }

  lemma OnlyItsKeyHits(requests: seq<Request>, names: Names, a: Answer, k: nat)
    requires DistinctKeys(requests) && Made(requests, names) && k < |requests|
    ensures Hit(requests, a).Some? ==>
      Hit(requests, a).value < |requests| &&
      (requests[Hit(requests, a).value].point == requests[k].point <==> a.key == requests[k].key)
    ensures Hit(requests, a).None? ==> !(a.key == requests[k].key && a.value.Some?)
  {
    hide FromPoint;
  }

  lemma {:induction false} SamplesCountValues(requests: seq<Request>, names: Names, answers: seq<Answer>,
                                              net: Network, nowMs: int, k: nat)
    requires DistinctKeys(requests) && Made(requests, names) && k < |requests|
    requires Decoded(requests, answers, net, nowMs).Ok?
    ensures SamplePoints(Decoded(requests, answers, net, nowMs).value)[requests[k].point] ==
      Values(answers, requests[k].key)
  {
    if answers == [] {
      assert Decoded(requests, answers, net, nowMs) == Ok([]);
    } else {
      var n := |answers| - 1;
      SamplesCountValues(requests, names, answers[..n], net, nowMs, k);
      OnlyItsKeyHits(requests, names, answers[n], k);
      HitBound(requests, answers[n]);
      hide Hit, DistinctKeys, Made;
      if Hit(requests, answers[n]).Some? {
        var value := net.decode(answers[n].value.value).value;
        SampleAdds(Decoded(requests, answers[..n], net, nowMs).value,
                   Sample(requests[Hit(requests, answers[n]).value].point, value, nowMs));
      }
    }
  }

  ghost predicate OneValueEach(requests: seq<Request>, answers: seq<Answer>) {
    forall k :: 0 <= k < |requests| ==> Values(answers, requests[k].key) == 1
  }

  // A multiple read that succeeds reports every request exactly once when the device gives each key
  // one value; a device that repeats a value makes a request reported as often.
  lemma MultipleReportsOnceExactly(device: nat, requests: seq<Request>, names: Names, net: Network, nowMs: int)
    requires Made(requests, names) && MultipleRead(device, requests, net, nowMs).Ok?
    ensures SamplePoints(MultipleRead(device, requests, net, nowMs).value) == PointsIn(requests) <==>
      OneValueEach(requests, Flat(net.multiple(device).value))
  {
    var flat := Flat(net.multiple(device).value);
    var samples := MultipleRead(device, requests, net, nowMs).value;
    RpmSucceedsExactly(device, requests, net, nowMs);
    MultipleReportsAll(device, requests, names, net, nowMs);
    assert Decoded(requests, flat, net, nowMs) == Ok(samples);
    hide Decoded, Values, Flat, PointsIn, SamplePoints, MultipleRead, Made, FromPoint, DistinctKeys, AllAnswered,
      AllDecodable, FirstMatch;
    forall k: nat | k < |requests|
      ensures SamplePoints(samples)[requests[k].point] == Values(flat, requests[k].key)
      ensures PointsIn(requests)[requests[k].point] == 1
    {
      SamplesCountValues(requests, names, flat, net, nowMs, k);
      PointsInMembers(requests, requests[k].point);
      PointsOnce(requests, names, requests[k].point);
    }
    if OneValueEach(requests, flat) {
      forall p
        ensures SamplePoints(samples)[p] == PointsIn(requests)[p]
      {
        PointsInMembers(requests, p);
      }
    }
  }

  // ---- The whole poll ----

  function GroupReport(device: nat, requests: seq<Request>, net: Network, nowMs: int): PollOutcome {
    match MultipleRead(device, requests, net, nowMs)
    case Ok(samples) => PollOutcome(samples, [])
    case Err(_) => SingleReads(device, requests, net, nowMs)
  }

  predicate BelongsTo(p: PointConfig, names: Names, device: nat) {
    FromPoint(p, names).Ok? && FromPoint(p, names).value.device == device
  }

  // The requests of a device, in the order of its points.
  function GroupOf(points: seq<PointConfig>, names: Names, device: nat): seq<Request> {
    if points == [] then []
    else
      var n := |points| - 1;
      var before := GroupOf(points[..n], names, device);
      match FromPoint(points[n], names)
      case Ok(request) => if request.device == device then before + [request] else before
      case Err(_) => before
  }

  function Devices(points: seq<PointConfig>, names: Names): set<nat> {
    if points == [] then {}
    else
      var n := |points| - 1;
      match FromPoint(points[n], names)
      case Ok(request) => Devices(points[..n], names) + {request.device}
      case Err(_) => Devices(points[..n], names)
  }

  // The points no request can be made of.
  function Malformed(points: seq<PointConfig>, names: Names): seq<PointFailure> {
    if points == [] then []
    else
      var n := |points| - 1;
      match FromPoint(points[n], names)
      case Ok(_) => Malformed(points[..n], names)
      case Err(reason) => Malformed(points[..n], names) + [PointFailure(points[n], reason)]
  }

  // The outcome when the groups of the devices complete in that order.
  function Collected(points: seq<PointConfig>, names: Names, order: seq<nat>, net: Network, nowMs: int): PollOutcome {
    if order == [] then PollOutcome([], Malformed(points, names))
    else
      var n := |order| - 1;
      var before := Collected(points, names, order[..n], net, nowMs);
      var group := GroupReport(order[n], GroupOf(points, names, order[n]), net, nowMs);
      PollOutcome(before.samples + group.samples, before.failures + group.failures)
  }

  // Every device of the points once.
  ghost predicate IsOrder(order: seq<nat>, points: seq<PointConfig>, names: Names) {
    && (forall i, j :: 0 <= i < j < |order| ==> order[i] != order[j])
    && (forall d :: d in order <==> d in Devices(points, names))
  }

  lemma GroupStep(points: seq<PointConfig>, p: PointConfig, names: Names, device: nat)
    ensures GroupOf(points + [p], names, device) == GroupOf(points, names, device) +
      if FromPoint(p, names).Ok? && FromPoint(p, names).value.device == device then [FromPoint(p, names).value] else []
  {
    assert (points + [p])[..|points|] == points;
    hide FromPoint;
  }

  lemma {:induction false} GroupKnown(points: seq<PointConfig>, names: Names, device: nat)
    ensures device !in Devices(points, names) ==> GroupOf(points, names, device) == []
    ensures Made(GroupOf(points, names, device), names)
  {
    if points != [] {
      GroupKnown(points[..|points| - 1], names, device);
      var p := points[|points| - 1];
      assert FromPoint(p, names).Ok? ==> FromPoint(p, names).value.point == p;
      hide FromPoint;
    }
  }

  lemma {:induction false} GroupDevice(points: seq<PointConfig>, names: Names, device: nat)
    ensures forall k :: 0 <= k < |GroupOf(points, names, device)| ==> GroupOf(points, names, device)[k].device == device
  {
    if points != [] {
      GroupDevice(points[..|points| - 1], names, device);
      hide FromPoint;
    }
  }

  function PointsOf(requests: seq<Request>): (points: seq<PointConfig>)
    ensures |points| == |requests| && forall k :: 0 <= k < |requests| ==> points[k] == requests[k].point
  {
    seq(|requests|, k requires 0 <= k < |requests| => requests[k].point)
  }

  ghost function OnDevice(names: Names, device: nat): PointConfig -> bool {
    (p: PointConfig) => BelongsTo(p, names, device)
  }

  ghost function Itself(): PointConfig -> PointConfig {
    (p: PointConfig) => p
  }

  // A group asks for the points of its device, each as often as it is there, in their order.
  lemma {:induction false} GroupInOrder(points: seq<PointConfig>, names: Names, device: nat)
    ensures Picks(points, OnDevice(names, device), Itself(), PointsOf(GroupOf(points, names, device)))
  {
    if points == [] {
      PicksNone(OnDevice(names, device), Itself());
      assert PointsOf(GroupOf(points, names, device)) == [];
    } else {
      var front, p := points[..|points| - 1], points[|points| - 1];
      assert points == front + [p];
      GroupInOrder(front, names, device);
      PicksOneMore(front, p, OnDevice(names, device), Itself(), PointsOf(GroupOf(front, names, device)));
      GroupStep(front, p, names, device);
      assert FromPoint(p, names).Ok? ==> FromPoint(p, names).value.point == p;
      hide FromPoint, GroupOf, Picks;
      assert PointsOf(GroupOf(points, names, device)) ==
             PointsOf(GroupOf(front, names, device)) + if BelongsTo(p, names, device) then [p] else [];
    }
  }

  lemma {:induction false} MalformedFails(points: seq<PointConfig>, names: Names)
    ensures forall k :: 0 <= k < |Malformed(points, names)| ==>
      FromPoint(Malformed(points, names)[k].point, names) == Err(Malformed(points, names)[k].error)
  {
    if points != [] {
      MalformedFails(points[..|points| - 1], names);
      hide FromPoint;
    }
  }

  method GroupByDevice(points: seq<PointConfig>, names: Names)
    returns (byDevice: map<nat, seq<Request>>, failures: seq<PointFailure>)
    ensures byDevice.Keys == Devices(points, names) && failures == Malformed(points, names)
    ensures forall d :: d in byDevice ==> byDevice[d] == GroupOf(points, names, d)
  {
    byDevice, failures := map[], [];
    for i := 0 to |points|
      invariant byDevice.Keys == Devices(points[..i], names) && failures == Malformed(points[..i], names)
      invariant forall d :: d in byDevice ==> byDevice[d] == GroupOf(points[..i], names, d)
    {
      assert points[..i + 1] == points[..i] + [points[i]];
      assert points[..i + 1][..i] == points[..i];
      ghost var before := byDevice;
      forall d: nat
        ensures GroupOf(points[..i + 1], names, d) == GroupOf(points[..i], names, d) +
          if FromPoint(points[i], names).Ok? && FromPoint(points[i], names).value.device == d
          then [FromPoint(points[i], names).value] else []
      {
        GroupStep(points[..i], points[i], names, d);
      }
      var request := FromPoint(points[i], names);
      if request.Ok? {
        var d := request.value.device;
        GroupKnown(points[..i], names, d);
        hide FromPoint, GroupOf;
        byDevice := byDevice[d := (if d in byDevice then byDevice[d] else []) + [request.value]];
      } else {
        hide FromPoint, GroupOf;
        failures := failures + [PointFailure(points[i], request.error)];
      }
    }
    assert points[..|points|] == points;
  }

  // ---- No point is lost ----

  lemma GroupReportsAll(device: nat, requests: seq<Request>, names: Names, net: Network, nowMs: int)
    requires Made(requests, names)
    ensures PointsIn(requests) <= Reported(GroupReport(device, requests, net, nowMs))
    ensures forall p :: p in Reported(GroupReport(device, requests, net, nowMs)) ==> p in PointsIn(requests)
  {
    hide FromPoint, PointsIn, MultipleRead, SingleReads;
    if MultipleRead(device, requests, net, nowMs).Ok? {
      MultipleReportsAll(device, requests, names, net, nowMs);
    } else {
      SinglesReportEachOnce(device, requests, net, nowMs);
    }
  }

  ghost function Requested(points: seq<PointConfig>, names: Names, order: seq<nat>): multiset<PointConfig> {
    if order == [] then multiset{}
    else
      var n := |order| - 1;
      Requested(points, names, order[..n]) + PointsIn(GroupOf(points, names, order[n]))
  }

  lemma PointAdds(requests: seq<Request>, r: Request)
    ensures PointsIn(requests + [r]) == PointsIn(requests) + multiset{r.point}
  {
    assert (requests + [r])[..|requests|] == requests;
  }

  function Once(p: PointConfig, here: bool): multiset<PointConfig> {
    if here then multiset{p} else multiset{}
  }

  lemma GroupPointsGrow(points: seq<PointConfig>, p: PointConfig, names: Names, device: nat)
    ensures PointsIn(GroupOf(points + [p], names, device)) ==
      PointsIn(GroupOf(points, names, device)) + Once(p, BelongsTo(p, names, device))
  {
    GroupStep(points, p, names, device);
    assert FromPoint(p, names).Ok? ==> FromPoint(p, names).value.point == p;
    var before := GroupOf(points, names, device);
    hide FromPoint, GroupOf, PointsIn;
    if BelongsTo(p, names, device) {
      PointAdds(before, FromPoint(p, names).value);
    } else {
      assert GroupOf(points + [p], names, device) == before;
    }
  }

  predicate BelongsIn(p: PointConfig, names: Names, order: seq<nat>) {
    FromPoint(p, names).Ok? && FromPoint(p, names).value.device in order
  }

  lemma BelongsSplits(p: PointConfig, names: Names, front: seq<nat>, last: nat)
    requires last !in front
    ensures BelongsIn(p, names, front + [last]) <==> BelongsIn(p, names, front) || BelongsTo(p, names, last)
    ensures !(BelongsIn(p, names, front) && BelongsTo(p, names, last))
  {
    hide FromPoint;
  }

  lemma OnceAdds(a: multiset<PointConfig>, b: multiset<PointConfig>, p: PointConfig, x: bool, y: bool)
    requires !(x && y)
    ensures (a + Once(p, x)) + (b + Once(p, y)) == (a + b) + Once(p, x || y)
  {
  }

  lemma RequestedStep(points: seq<PointConfig>, names: Names, front: seq<nat>, last: nat)
    ensures Requested(points, names, front + [last]) ==
      Requested(points, names, front) + PointsIn(GroupOf(points, names, last))
  {
    assert (front + [last])[..|front|] == front;
    hide GroupOf, PointsIn;
  }

  lemma GrowsStep(points: seq<PointConfig>, p: PointConfig, names: Names, front: seq<nat>, last: nat)
    requires last !in front
    requires Requested(points + [p], names, front) ==
      Requested(points, names, front) + Once(p, BelongsIn(p, names, front))
    ensures Requested(points + [p], names, front + [last]) ==
      Requested(points, names, front + [last]) + Once(p, BelongsIn(p, names, front + [last]))
  {
    hide *;
    RequestedStep(points, names, front, last);
    RequestedStep(points + [p], names, front, last);
    GroupPointsGrow(points, p, names, last);
    BelongsSplits(p, names, front, last);
    OnceAdds(Requested(points, names, front), PointsIn(GroupOf(points, names, last)), p,
             BelongsIn(p, names, front), BelongsTo(p, names, last));
  }

  // A further point joins the group of its device and no other.
  lemma {:induction false} RequestedGrows(points: seq<PointConfig>, p: PointConfig, names: Names, order: seq<nat>)
    requires forall i, j :: 0 <= i < j < |order| ==> order[i] != order[j]
    ensures Requested(points + [p], names, order) ==
      Requested(points, names, order) + Once(p, BelongsIn(p, names, order))
  {
    hide *;
    if order == [] {
      NothingAsked(points, p, names);
    } else {
      var n := |order| - 1;
      var front, last := order[..n], order[n];
      RequestedGrows(points, p, names, front);
      assert order == front + [last];
      GrowsStep(points, p, names, front, last);
    }
  }

  lemma NothingAsked(points: seq<PointConfig>, p: PointConfig, names: Names)
    ensures Requested(points + [p], names, []) == Requested(points, names, []) + Once(p, BelongsIn(p, names, []))
  {
    hide FromPoint;
  }

  lemma {:induction false} NothingRequested(names: Names, order: seq<nat>)
    ensures Requested([], names, order) == multiset{}
  {
    if order != [] {
      NothingRequested(names, order[..|order| - 1]);
    }
  }

  lemma MalformedGrows(points: seq<PointConfig>, p: PointConfig, names: Names)
    ensures FailurePoints(Malformed(points + [p], names)) ==
      FailurePoints(Malformed(points, names)) + Once(p, FromPoint(p, names).Err?)
  {
    var before, request := Malformed(points, names), FromPoint(p, names);
    assert (points + [p])[..|points|] == points;
    assert Malformed(points + [p], names) ==
           if request.Err? then before + [PointFailure(p, request.error)] else before;
    hide FromPoint, FailurePoints, Malformed;
    if request.Err? {
      FailureAdds(before, PointFailure(p, request.error));
    }
  }

  lemma DevicesGrow(points: seq<PointConfig>, p: PointConfig, names: Names)
    ensures Devices(points + [p], names) == Devices(points, names) +
      if FromPoint(p, names).Ok? then {FromPoint(p, names).value.device} else {}
  {
    assert (points + [p])[..|points|] == points;
    hide FromPoint;
  }

  // Every point is malformed or in the group of its device, once.
  lemma {:induction false} PointsPartition(points: seq<PointConfig>, names: Names, order: seq<nat>)
    requires forall i, j :: 0 <= i < j < |order| ==> order[i] != order[j]
    requires forall d :: d in Devices(points, names) ==> d in order
    ensures multiset(points) == FailurePoints(Malformed(points, names)) + Requested(points, names, order)
  {
    if points == [] {
      NothingRequested(names, order);
      assert Malformed(points, names) == [];
    } else {
      var n := |points| - 1;
      var front, p := points[..n], points[n];
      assert points == front + [p];
      MalformedGrows(front, p, names);
      DevicesGrow(front, p, names);
      hide *;
      PointsPartition(front, names, order);
      RequestedGrows(front, p, names, order);
      BelongsSomewhere(p, names, order);
      var malformed, asked := FailurePoints(Malformed(front, names)), Requested(front, names, order);
      OnceAdds(malformed, asked, p, FromPoint(p, names).Err?, BelongsIn(p, names, order));
      assert multiset(points) == multiset(front) + multiset{p};
      assert Once(p, true) == multiset{p} by {
        OnceIs(p);
      }
    }
  }

  lemma BelongsSomewhere(p: PointConfig, names: Names, order: seq<nat>)
    requires FromPoint(p, names).Ok? ==> FromPoint(p, names).value.device in order
    ensures BelongsIn(p, names, order) <==> FromPoint(p, names).Ok?
  {
    hide FromPoint;
  }

  lemma OnceIs(p: PointConfig)
    ensures Once(p, true) == multiset{p}
  {
  }

  lemma {:induction false} SamplePointsSplit(a: seq<PointSample>, b: seq<PointSample>)
    ensures SamplePoints(a + b) == SamplePoints(a) + SamplePoints(b)
  {
    if b == [] {
      assert a + b == a;
    } else {
      var n := |b| - 1;
      assert a + b == (a + b[..n]) + [b[n]];
      SamplePointsSplit(a, b[..n]);
      SampleAdds(a + b[..n], b[n]);
    }
  }

  lemma {:induction false} FailurePointsSplit(a: seq<PointFailure>, b: seq<PointFailure>)
    ensures FailurePoints(a + b) == FailurePoints(a) + FailurePoints(b)
  {
    if b == [] {
      assert a + b == a;
    } else {
      var n := |b| - 1;
      assert a + b == (a + b[..n]) + [b[n]];
      FailurePointsSplit(a, b[..n]);
      FailureAdds(a + b[..n], b[n]);
    }
  }

  lemma ReportedJoins(a: PollOutcome, b: PollOutcome)
    ensures Reported(PollOutcome(a.samples + b.samples, a.failures + b.failures)) == Reported(a) + Reported(b)
  {
    SamplePointsSplit(a.samples, b.samples);
    FailurePointsSplit(a.failures, b.failures);
  }

  ghost predicate Covers(asked: multiset<PointConfig>, got: multiset<PointConfig>) {
    asked <= got && (forall p :: p in got ==> p in asked)
  }

  lemma CoversJoins(a: multiset<PointConfig>, x: multiset<PointConfig>, b: multiset<PointConfig>, y: multiset<PointConfig>)
    requires Covers(a, x) && Covers(b, y)
    ensures Covers(a + b, x + y)
  {
  }

  // What the collected groups report: at least every point asked for, and no other.
  lemma {:induction false} CollectedReports(points: seq<PointConfig>, names: Names, order: seq<nat>, net: Network, nowMs: int)
    ensures Covers(FailurePoints(Malformed(points, names)) + Requested(points, names, order),
                   Reported(Collected(points, names, order, net, nowMs)))
  {
    if order == [] {
      assert Collected(points, names, order, net, nowMs) == PollOutcome([], Malformed(points, names));
      assert SamplePoints([]) == multiset{};
    } else {
      var n := |order| - 1;
      var before := Collected(points, names, order[..n], net, nowMs);
      var requests := GroupOf(points, names, order[n]);
      var group := GroupReport(order[n], requests, net, nowMs);
      var malformed := FailurePoints(Malformed(points, names));
      var asked := Requested(points, names, order[..n]);
      CollectedReports(points, names, order[..n], net, nowMs);
      GroupKnown(points, names, order[n]);
      GroupReportsAll(order[n], requests, names, net, nowMs);
      ReportedJoins(before, group);
      assert Covers(PointsIn(requests), Reported(group));
      assert Requested(points, names, order) == asked + PointsIn(requests);
      assert Collected(points, names, order, net, nowMs) ==
             PollOutcome(before.samples + group.samples, before.failures + group.failures);
      hide *;
      CoversJoins(malformed + asked, Reported(before), PointsIn(requests), Reported(group));
      assert malformed + (asked + PointsIn(requests)) == (malformed + asked) + PointsIn(requests);
    }
  }

  // Whatever the devices answer and in whatever order the groups complete, a poll reports every point
  // at least as often as it was asked for, and no other point.
  lemma PollReportsEveryPoint(points: seq<PointConfig>, names: Names, order: seq<nat>, net: Network, nowMs: int)
    requires IsOrder(order, points, names)
    ensures var got := Reported(Collected(points, names, order, net, nowMs));
      multiset(points) <= got && (forall p :: p in got ==> p in points)
  {
    hide FailurePoints, Requested, Malformed, Devices, Reported, Collected;
    PointsPartition(points, names, order);
    CollectedReports(points, names, order, net, nowMs);
    forall p | p in Reported(Collected(points, names, order, net, nowMs))
      ensures p in points
    {
      assert p in multiset(points);
    }
  }

  // ---- What each point is reported with ----

  ghost predicate RpmWorks(device: nat, requests: seq<Request>, net: Network) {
    && net.multiple(device).Ok?
    && DistinctKeys(requests)
    && AllAnswered(requests, Flat(net.multiple(device).value))
    && AllDecodable(requests, Flat(net.multiple(device).value), net)
  }

  ghost predicate HasAnswer(answers: seq<Answer>, key: Key, net: Network, value: TelemetryValue) {
    exists k :: 0 <= k < |answers| && answers[k].key == key && answers[k].value.Some? &&
      net.decode(answers[k].value.value) == Ok(value)
  }

  ghost predicate OwnReadGives(device: nat, requests: seq<Request>, p: PointConfig, net: Network, value: TelemetryValue) {
    exists k :: 0 <= k < |requests| && requests[k].point == p && ReadsTo(device, k, net, value)
  }

  ghost predicate OwnReadFails(device: nat, requests: seq<Request>, p: PointConfig, net: Network, reason: string) {
    exists k :: 0 <= k < |requests| && requests[k].point == p && ReadFails(device, k, net, reason)
  }

  // A sample carries what its point's own key was answered with in its device's multiple read or,
  // where that does not work, what its own read gave.
  ghost predicate GoodSample(points: seq<PointConfig>, names: Names, net: Network, nowMs: int, s: PointSample) {
    && s == PointSample(s.point, s.value, "", nowMs)
    && FromPoint(s.point, names).Ok?
    && var r := FromPoint(s.point, names).value;
       var group := GroupOf(points, names, r.device);
       if RpmWorks(r.device, group, net) then HasAnswer(Flat(net.multiple(r.device).value), r.key, net, s.value)
       else OwnReadGives(r.device, group, s.point, net, s.value)
  }

  // A failure says why no request could be made of the point, or what its own read failed with.
  ghost predicate GoodFailure(points: seq<PointConfig>, names: Names, net: Network, f: PointFailure) {
    match FromPoint(f.point, names)
    case Err(reason) => f.error == reason
    case Ok(r) =>
      var group := GroupOf(points, names, r.device);
      !RpmWorks(r.device, group, net) && OwnReadFails(r.device, group, f.point, net, f.error)
  }

  ghost predicate GoodOutcome(points: seq<PointConfig>, names: Names, net: Network, nowMs: int, o: PollOutcome) {
    && (forall k :: 0 <= k < |o.samples| ==> GoodSample(points, names, net, nowMs, o.samples[k]))
    && (forall k :: 0 <= k < |o.failures| ==> GoodFailure(points, names, net, o.failures[k]))
  }

  lemma MultipleIsGood(points: seq<PointConfig>, names: Names, device: nat, net: Network, nowMs: int)
    requires MultipleRead(device, GroupOf(points, names, device), net, nowMs).Ok?
    ensures GoodOutcome(points, names, net, nowMs,
                        PollOutcome(MultipleRead(device, GroupOf(points, names, device), net, nowMs).value, []))
  {
    var group := GroupOf(points, names, device);
    var samples := MultipleRead(device, group, net, nowMs).value;
    var answers := Flat(net.multiple(device).value);
    RpmSucceedsExactly(device, group, net, nowMs);
    assert RpmWorks(device, group, net);
    var ks := DecodedReadsAnswers(group, answers, net, nowMs);
    GroupKnown(points, names, device);
    GroupDevice(points, names, device);
    hide FromPoint, GroupOf, MultipleRead, RpmWorks, Decoded, Flat;
    forall k | 0 <= k < |samples|
      ensures GoodSample(points, names, net, nowMs, samples[k])
    {
      var s, a := samples[k], answers[ks[k]];
      assert AnsweredBy(group, a, net, nowMs, s);
      var r :| 0 <= r < |group| && group[r].key == a.key && group[r].point == s.point;
      assert FromPoint(s.point, names) == Ok(group[r]);
      assert HasAnswer(answers, group[r].key, net, s.value);
    }
  }

  lemma SinglesAreGood(points: seq<PointConfig>, names: Names, device: nat, net: Network, nowMs: int)
    requires MultipleRead(device, GroupOf(points, names, device), net, nowMs).Err?
    ensures GoodOutcome(points, names, net, nowMs, SingleReads(device, GroupOf(points, names, device), net, nowMs))
  {
    var group := GroupOf(points, names, device);
    var o := SingleReads(device, group, net, nowMs);
    RpmSucceedsExactly(device, group, net, nowMs);
    assert !RpmWorks(device, group, net);
    var ks, js := SinglesReadEachTheirOwn(device, group, net, nowMs);
    GroupKnown(points, names, device);
    GroupDevice(points, names, device);
    hide FromPoint, GroupOf, MultipleRead, RpmWorks, SingleReads;
    forall k | 0 <= k < |o.samples|
      ensures GoodSample(points, names, net, nowMs, o.samples[k])
    {
      assert FromPoint(o.samples[k].point, names) == Ok(group[ks[k]]);
      assert OwnReadGives(device, group, o.samples[k].point, net, o.samples[k].value);
    }
    forall k | 0 <= k < |o.failures|
      ensures GoodFailure(points, names, net, o.failures[k])
    {
      assert FromPoint(o.failures[k].point, names) == Ok(group[js[k]]);
      assert OwnReadFails(device, group, o.failures[k].point, net, o.failures[k].error);
    }
  }

  lemma GoodJoins(points: seq<PointConfig>, names: Names, net: Network, nowMs: int, a: PollOutcome, b: PollOutcome)
    requires GoodOutcome(points, names, net, nowMs, a) && GoodOutcome(points, names, net, nowMs, b)
    ensures GoodOutcome(points, names, net, nowMs, PollOutcome(a.samples + b.samples, a.failures + b.failures))
  {
    hide GoodSample, GoodFailure;
  }

  // Every sample of a poll carries its own point's value, every failure its own point's error.
  lemma {:induction false} PollReportsTheirOwn(points: seq<PointConfig>, names: Names, order: seq<nat>, net: Network, nowMs: int)
    ensures GoodOutcome(points, names, net, nowMs, Collected(points, names, order, net, nowMs))
  {
    if order == [] {
      MalformedFails(points, names);
      assert Collected(points, names, order, net, nowMs) == PollOutcome([], Malformed(points, names));
      hide FromPoint, Malformed;
    } else {
      var n := |order| - 1;
      var before, group := Collected(points, names, order[..n], net, nowMs), GroupOf(points, names, order[n]);
      var report := GroupReport(order[n], group, net, nowMs);
      PollReportsTheirOwn(points, names, order[..n], net, nowMs);
      assert Collected(points, names, order, net, nowMs) ==
             PollOutcome(before.samples + report.samples, before.failures + report.failures);
      hide MultipleRead, SingleReads, GoodOutcome, GroupOf, Collected;
      if MultipleRead(order[n], group, net, nowMs).Ok? {
        MultipleIsGood(points, names, order[n], net, nowMs);
      } else {
        SinglesAreGood(points, names, order[n], net, nowMs);
      }
      GoodJoins(points, names, net, nowMs, before, report);
    }
  }

  // The outcome of some order in which the groups completed.
  ghost predicate IsPoll(points: seq<PointConfig>, names: Names, net: Network, nowMs: int, outcome: PollOutcome) {
    exists order :: IsOrder(order, points, names) && outcome == Collected(points, names, order, net, nowMs)
  }

  method PollWithClient(points: seq<PointConfig>, names: Names, net: Network, nowMs: int)
    returns (outcome: PollOutcome)
    ensures IsPoll(points, names, net, nowMs, outcome)
    ensures multiset(points) <= Reported(outcome)
    ensures forall p :: p in Reported(outcome) ==> p in points
    ensures GoodOutcome(points, names, net, nowMs, outcome)
  {
    hide FromPoint, GroupOf, MultipleRead, SingleReads, Devices, Malformed, Reported, GoodOutcome;
    var byDevice, failures := GroupByDevice(points, names);
    var samples := [];
    ghost var order: seq<nat> := [];
    var pending := byDevice.Keys;
    while pending != {}
      invariant pending <= Devices(points, names)
      invariant forall i, j :: 0 <= i < j < |order| ==> order[i] != order[j]
      invariant forall d :: d in order <==> d in Devices(points, names) && d !in pending
      invariant PollOutcome(samples, failures) == Collected(points, names, order, net, nowMs)
      decreases |pending|
    {
      var device :| device in pending;
      assert (order + [device])[..|order|] == order;
      var requests := byDevice[device];
      var read := ReadGroupRpm(device, requests, net, nowMs);
      var groupSamples, groupFailures := [], [];
      if read.Ok? {
        groupSamples := read.value;
      } else {
        groupSamples, groupFailures := ReadGroupIndividual(device, requests, net, nowMs);
      }
      samples := samples + groupSamples;
      failures := failures + groupFailures;
      order := order + [device];
      pending := pending - {device};
    }
    outcome := PollOutcome(samples, failures);
    PollReportsEveryPoint(points, names, order, net, nowMs);
    PollReportsTheirOwn(points, names, order, net, nowMs);
  }
}
