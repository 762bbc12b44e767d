// Publishing one batch of samples, one message per sample or one envelope per device.
module Publish {
  import opened Wrappers
  import opened Model
  import opened Picking

  // The broker's answers during one batch: what the k-th publish call returns (None is success).
  type Broker = nat -> Option<string>

  // The fate of one sample; one per sample handed over, in the order of the publish events.
  datatype Delivery = Delivery(sample: PointSample, error: Option<string>)

  datatype PublishStats = PublishStats(queued: nat, published: nat, failed: nat)

  datatype Envelope = Envelope(id: string, timeMs: int, samples: seq<PointSample>)

  // ---- Specification ----

  function CountOk(ds: seq<Delivery>): nat {
    if ds == [] then 0 else CountOk(ds[..|ds| - 1]) + if ds[|ds| - 1].error.None? then 1 else 0
  }

  function CountFailed(ds: seq<Delivery>): nat {
    if ds == [] then 0 else CountFailed(ds[..|ds| - 1]) + if ds[|ds| - 1].error.Some? then 1 else 0
  }

  function StatsOf(ds: seq<Delivery>): PublishStats {
    PublishStats(|ds|, CountOk(ds), CountFailed(ds))
  }

  function WithError(samples: seq<PointSample>, error: Option<string>): seq<Delivery> {
    seq(|samples|, i requires 0 <= i < |samples| => Delivery(samples[i], error))
  }

  function ScalarDeliveries(samples: seq<PointSample>, broker: Broker): seq<Delivery> {
    seq(|samples|, i requires 0 <= i < |samples| => Delivery(samples[i], broker(i)))
  }

  function SamplesOf(ds: seq<Delivery>): seq<PointSample> {
    seq(|ds|, i requires 0 <= i < |ds| => ds[i].sample)
  }

  // The samples of one device, in batch order.
  function Group(samples: seq<PointSample>, idOf: PointConfig -> string, id: string): seq<PointSample> {
    if samples == [] then []
    else
      var s := samples[|samples| - 1];
      Group(samples[..|samples| - 1], idOf, id) + if idOf(s.point) == id then [s] else []
  }

  // The device ids in the order in which the batch first mentions them.
  function Order(samples: seq<PointSample>, idOf: PointConfig -> string): seq<string> {
    if samples == [] then []
    else
      var rest := Order(samples[..|samples| - 1], idOf);
      var id := idOf(samples[|samples| - 1].point);
      if id in rest then rest else rest + [id]
  }

  function EnvelopeTime(samples: seq<PointSample>): int {
    if samples == [] then 0
    else
      var rest := EnvelopeTime(samples[..|samples| - 1]);
      var t := samples[|samples| - 1].timestampMs;
      if t > rest then t else rest
  }

  // Deliveries of the first n envelopes, each group sharing one answer of the broker.
  function EnvelopeDeliveries(samples: seq<PointSample>, idOf: PointConfig -> string, broker: Broker,
                              ids: seq<string>): seq<Delivery>
  {
    if ids == [] then []
    else
      EnvelopeDeliveries(samples, idOf, broker, ids[..|ids| - 1]) +
      WithError(Group(samples, idOf, ids[|ids| - 1]), broker(|ids| - 1))
  }

  datatype Format = Scalar | NetixEnvelope

  function Deliveries(format: Format, samples: seq<PointSample>, idOf: PointConfig -> string,
                      broker: Broker): seq<Delivery>
  {
    if format == NetixEnvelope then EnvelopeDeliveries(samples, idOf, broker, Order(samples, idOf))
    else ScalarDeliveries(samples, broker)
  }

  function Settle(table: StatusTable, d: Delivery): StatusTable {
    var id := Identity(d.sample.point);
    if id in table then table[id := table[id].RecordPublish(d.error)] else table
  }

  function SettleAll(table: StatusTable, ds: seq<Delivery>): StatusTable {
    if ds == [] then table else Settle(SettleAll(table, ds[..|ds| - 1]), ds[|ds| - 1])
  }

  // ---- What a batch keeps ----

  lemma {:induction false} CountsSplit(a: seq<Delivery>, b: seq<Delivery>)
    ensures CountOk(a + b) == CountOk(a) + CountOk(b)
    ensures CountFailed(a + b) == CountFailed(a) + CountFailed(b)
  {
    if b == [] {
      assert a + b == a;
    } else {
      assert (a + b)[..|a + b| - 1] == a + b[..|b| - 1];
      CountsSplit(a, b[..|b| - 1]);
    }
  }

  lemma {:induction false} CountsAddUp(ds: seq<Delivery>)
    ensures CountOk(ds) + CountFailed(ds) == |ds|
  {
    if ds != [] {
      CountsAddUp(ds[..|ds| - 1]);
    }
  }

  // The deliveries that met an error, by position.
  ghost function Erroneous(ds: seq<Delivery>): set<nat> {
    set k: nat | k < |ds| && ds[k].error.Some?
  }

  // The failed count is the number of deliveries with an error, the published count that of the others.
  lemma {:induction false} CountsExact(ds: seq<Delivery>)
    ensures CountFailed(ds) == |Erroneous(ds)| && CountOk(ds) == |ds| - |Erroneous(ds)|
  {
    CountsAddUp(ds);
    if ds == [] {
      assert Erroneous(ds) == {};
    } else {
      var n: nat := |ds| - 1;
      CountsExact(ds[..n]);
      assert Erroneous(ds) == Erroneous(ds[..n]) + if ds[n].error.Some? then {n} else {};
    }
  }

  lemma {:induction false} SettleAllSplits(table: StatusTable, a: seq<Delivery>, b: seq<Delivery>)
    ensures SettleAll(table, a + b) == SettleAll(SettleAll(table, a), b)
  {
    if b == [] {
      assert a + b == a;
    } else {
      assert (a + b)[..|a + b| - 1] == a + b[..|b| - 1];
      SettleAllSplits(table, a, b[..|b| - 1]);
    }
  }

  // Publishing touches nothing of a status but its publish error.
  lemma {:induction false} SettleKeepsReads(table: StatusTable, ds: seq<Delivery>)
    ensures SettleAll(table, ds).Keys == table.Keys
    ensures forall id :: id in table ==>
      SettleAll(table, ds)[id].(lastPublishError := None) == table[id].(lastPublishError := None)
  {
    if ds != [] {
      SettleKeepsReads(table, ds[..|ds| - 1]);
    }
  }

  // The error of the latest delivery for an identity, if there is one.
  function LatestDelivery(ds: seq<Delivery>, id: PointIdentity): Option<Option<string>> {
    if ds == [] then None
    else if Identity(ds[|ds| - 1].sample.point) == id then Some(ds[|ds| - 1].error)
    else LatestDelivery(ds[..|ds| - 1], id)
  }

  // A known identity keeps the error of its latest delivery.
  lemma {:induction false} SettleKeepsLatest(table: StatusTable, ds: seq<Delivery>, id: PointIdentity)
    requires id in table
    ensures id in SettleAll(table, ds)
    ensures SettleAll(table, ds)[id].lastPublishError ==
      if LatestDelivery(ds, id).Some? then LatestDelivery(ds, id).value else table[id].lastPublishError
  {
    if ds != [] {
      SettleKeepsLatest(table, ds[..|ds| - 1], id);
    }
  }

  ghost function OfDevice(idOf: PointConfig -> string, id: string): PointSample -> bool {
    (s: PointSample) => idOf(s.point) == id
  }

  ghost function Itself(): PointSample -> PointSample {
    (s: PointSample) => s
  }

  // A group is the device's samples, each once, in batch order.
  lemma {:induction false} GroupPicks(samples: seq<PointSample>, idOf: PointConfig -> string, id: string)
    ensures Picks(samples, OfDevice(idOf, id), Itself(), Group(samples, idOf, id))
  {
    if samples == [] {
      PicksNone(OfDevice(idOf, id), Itself());
    } else {
      var front, last := samples[..|samples| - 1], samples[|samples| - 1];
      GroupPicks(front, idOf, id);
      PicksOneMore(front, last, OfDevice(idOf, id), Itself(), Group(front, idOf, id));
      assert samples == front + [last];
      hide Picks;
    }
  }

  // Sample k belongs to the j-th device.
  ghost function SampleOf(samples: seq<PointSample>, idOf: PointConfig -> string, ids: seq<string>): (nat, nat) -> bool {
    (j: nat, k: nat) => j < |ids| && k < |samples| && idOf(samples[k].point) == ids[j]
  }

  ghost predicate AllDelivered(samples: seq<PointSample>, broker: Broker, at: seq<(nat, nat)>, ds: seq<Delivery>) {
    && |ds| == |at|
    && forall a :: 0 <= a < |at| ==> at[a].1 < |samples| && ds[a] == Delivery(samples[at[a].1], broker(at[a].0))
  }

  // The samples of the first m devices, device by device, each device's in batch order and with the
  // answer to its envelope.
  ghost predicate DeliveredAt(samples: seq<PointSample>, idOf: PointConfig -> string, broker: Broker,
                              ids: seq<string>, m: nat, at: seq<(nat, nat)>, ds: seq<Delivery>)
  {
    m <= |ids| && Places(at, m, SampleOf(samples, idOf, ids)) && AllDelivered(samples, broker, at, ds)
  }

  lemma DeliveredJoins(samples: seq<PointSample>, broker: Broker, at: seq<(nat, nat)>, ds: seq<Delivery>,
                       m: nat, ks: seq<nat>, group: seq<PointSample>)
    requires AllDelivered(samples, broker, at, ds)
    requires |group| == |ks| && forall a :: 0 <= a < |ks| ==> ks[a] < |samples| && group[a] == samples[ks[a]]
    ensures AllDelivered(samples, broker, at + Row(m, ks), ds + WithError(group, broker(m)))
  {
    var all, list := at + Row(m, ks), ds + WithError(group, broker(m));
    forall a | 0 <= a < |all|
      ensures all[a].1 < |samples| && list[a] == Delivery(samples[all[a].1], broker(all[a].0))
    {
      if a < |at| {
        assert all[a] == at[a] && list[a] == ds[a];
      } else {
        assert all[a] == (m, ks[a - |at|]) && list[a] == Delivery(group[a - |at|], broker(m));
      }
    }
  }

  lemma DeliveredRow(samples: seq<PointSample>, idOf: PointConfig -> string, broker: Broker, ids: seq<string>,
                     j: nat, at: seq<(nat, nat)>, ds: seq<Delivery>) returns (more: seq<(nat, nat)>)
    requires j < |ids| && DeliveredAt(samples, idOf, broker, ids, j, at, ds)
    ensures DeliveredAt(samples, idOf, broker, ids, j + 1, more, ds + WithError(Group(samples, idOf, ids[j]), broker(j)))
  {
    var group := Group(samples, idOf, ids[j]);
    GroupPicks(samples, idOf, ids[j]);
    var ks :| PicksAt(samples, OfDevice(idOf, ids[j]), Itself(), ks, group);
    hide Places, AllDelivered, Group, WithError;
    PlacesRow(at, j, SampleOf(samples, idOf, ids), ks);
    DeliveredJoins(samples, broker, at, ds, j, ks, group);
    more := at + Row(j, ks);
  }

  lemma {:induction false} EnvelopeDeliveriesPlaced(samples: seq<PointSample>, idOf: PointConfig -> string,
                                                    broker: Broker, ids: seq<string>, m: nat)
    returns (at: seq<(nat, nat)>)
    requires m <= |ids|
    ensures DeliveredAt(samples, idOf, broker, ids, m, at, EnvelopeDeliveries(samples, idOf, broker, ids[..m]))
  {
    if m == 0 {
      at := [];
      PlacesNone(SampleOf(samples, idOf, ids));
    } else {
      var j: nat := m - 1;
      assert ids[..m][..j] == ids[..j];
      assert EnvelopeDeliveries(samples, idOf, broker, ids[..m]) ==
             EnvelopeDeliveries(samples, idOf, broker, ids[..j]) + WithError(Group(samples, idOf, ids[j]), broker(j));
      hide *;
      var before := EnvelopeDeliveriesPlaced(samples, idOf, broker, ids, j);
      at := DeliveredRow(samples, idOf, broker, ids, j, before, EnvelopeDeliveries(samples, idOf, broker, ids[..j]));
    }
  }

  // What becomes of a batch: in the scalar format sample k meets answer k; as envelopes the samples
  // go device by device in the order of first mention, each device's in batch order, and meet the
  // answer to their device's envelope.
  ghost predicate Delivered(format: Format, samples: seq<PointSample>, idOf: PointConfig -> string,
                            broker: Broker, ds: seq<Delivery>)
  {
    match format
    case Scalar => |ds| == |samples| && forall k :: 0 <= k < |ds| ==> ds[k] == Delivery(samples[k], broker(k))
    case NetixEnvelope =>
      var ids := Order(samples, idOf);
      exists at :: DeliveredAt(samples, idOf, broker, ids, |ids|, at, ds)
  }

  lemma DeliveriesDelivered(format: Format, samples: seq<PointSample>, idOf: PointConfig -> string, broker: Broker)
    ensures Delivered(format, samples, idOf, broker, Deliveries(format, samples, idOf, broker))
  {
    if format == NetixEnvelope {
      var ids := Order(samples, idOf);
      var at := EnvelopeDeliveriesPlaced(samples, idOf, broker, ids, |ids|);
      assert ids[..|ids|] == ids;
      hide DeliveredAt, Order, EnvelopeDeliveries;
    }
  }

  lemma {:induction false} GroupMembers(samples: seq<PointSample>, idOf: PointConfig -> string, id: string)
    ensures forall s :: s in Group(samples, idOf, id) <==> s in samples && idOf(s.point) == id
  {
    if samples != [] {
      GroupMembers(samples[..|samples| - 1], idOf, id);
      assert samples == samples[..|samples| - 1] + [samples[|samples| - 1]];
    }
  }

  // Where the batch first mentions a device; the length of the batch when it never does.
  function FirstMention(samples: seq<PointSample>, idOf: PointConfig -> string, id: string): (k: nat)
    ensures k <= |samples|
    ensures k < |samples| ==> idOf(samples[k].point) == id
    ensures forall i :: 0 <= i < k ==> idOf(samples[i].point) != id
  {
    if samples == [] then 0
    else
      var n := |samples| - 1;
      var k := FirstMention(samples[..n], idOf, id);
      if k < n then k else if idOf(samples[n].point) == id then n else n + 1
  }

  // The envelopes go out in the order in which the batch first mentions their devices, one each.
  lemma {:induction false} OrderIsFirstMention(samples: seq<PointSample>, idOf: PointConfig -> string)
    ensures forall id :: id in Order(samples, idOf) <==> FirstMention(samples, idOf, id) < |samples|
    ensures forall i, j :: 0 <= i < j < |Order(samples, idOf)| ==>
      FirstMention(samples, idOf, Order(samples, idOf)[i]) < FirstMention(samples, idOf, Order(samples, idOf)[j])
  {
    if samples != [] {
      var prefix := samples[..|samples| - 1];
      OrderIsFirstMention(prefix, idOf);
    }
  }

  lemma {:induction false} UnmentionedGroup(samples: seq<PointSample>, idOf: PointConfig -> string, id: string)
    requires FirstMention(samples, idOf, id) == |samples|
    ensures Group(samples, idOf, id) == []
  {
    if samples != [] {
      UnmentionedGroup(samples[..|samples| - 1], idOf, id);
    }
  }

  ghost function Grouped(samples: seq<PointSample>, idOf: PointConfig -> string, ids: seq<string>): seq<PointSample> {
    if ids == [] then []
    else Grouped(samples, idOf, ids[..|ids| - 1]) + Group(samples, idOf, ids[|ids| - 1])
  }

  ghost predicate NoRepeat(ids: seq<string>) {
    forall i, j :: 0 <= i < j < |ids| ==> ids[i] != ids[j]
  }

  lemma OrderNoRepeat(samples: seq<PointSample>, idOf: PointConfig -> string)
    ensures NoRepeat(Order(samples, idOf))
  {
    OrderIsFirstMention(samples, idOf);
  }

  lemma {:induction false} GroupedGrows(prefix: seq<PointSample>, last: PointSample,
                                        idOf: PointConfig -> string, ids: seq<string>)
    requires NoRepeat(ids)
    ensures multiset(Grouped(prefix + [last], idOf, ids)) ==
      multiset(Grouped(prefix, idOf, ids)) + if idOf(last.point) in ids then multiset{last} else multiset{}
  {
    if ids != [] {
      var front, id := ids[..|ids| - 1], ids[|ids| - 1];
      GroupedGrows(prefix, last, idOf, front);
      assert (prefix + [last])[..|prefix|] == prefix;
      var g := Group(prefix, idOf, id);
      assert Group(prefix + [last], idOf, id) == g + if idOf(last.point) == id then [last] else [];
      assert idOf(last.point) in ids <==> idOf(last.point) in front || idOf(last.point) == id;
      assert id !in front;
      hide Group, Grouped;
      assert multiset(g + [last]) == multiset(g) + multiset{last};
    }
  }

  lemma NewGroupEmpty(prefix: seq<PointSample>, last: PointSample, idOf: PointConfig -> string)
    ensures idOf(last.point) in Order(prefix + [last], idOf)
    ensures Grouped(prefix, idOf, Order(prefix + [last], idOf)) == Grouped(prefix, idOf, Order(prefix, idOf))
  {
    var rest, id := Order(prefix, idOf), idOf(last.point);
    assert (prefix + [last])[..|prefix|] == prefix;
    if id !in rest {
      OrderIsFirstMention(prefix, idOf);
      UnmentionedGroup(prefix, idOf, id);
      assert (rest + [id])[..|rest|] == rest;
    }
  }

  lemma PartitionStep(prefix: seq<PointSample>, last: PointSample, idOf: PointConfig -> string)
    requires multiset(Grouped(prefix, idOf, Order(prefix, idOf))) == multiset(prefix)
    ensures multiset(Grouped(prefix + [last], idOf, Order(prefix + [last], idOf))) == multiset(prefix + [last])
  {
    hide Grouped, Order;
    OrderNoRepeat(prefix + [last], idOf);
    GroupedGrows(prefix, last, idOf, Order(prefix + [last], idOf));
    NewGroupEmpty(prefix, last, idOf);
  }

  // The envelopes of a batch hold exactly its samples, each as often as the batch does.
  lemma {:induction false} GroupsPartition(samples: seq<PointSample>, idOf: PointConfig -> string)
    ensures multiset(Grouped(samples, idOf, Order(samples, idOf))) == multiset(samples)
  {
    if samples == [] {
      assert Order(samples, idOf) == [];
    } else {
      hide *;
      var prefix, last := samples[..|samples| - 1], samples[|samples| - 1];
      assert samples == prefix + [last];
      GroupsPartition(prefix, idOf);
      PartitionStep(prefix, last, idOf);
    }
  }

  lemma {:induction false} EnvelopeDeliveriesGroups(samples: seq<PointSample>, idOf: PointConfig -> string,
                                                    broker: Broker, ids: seq<string>)
    ensures SamplesOf(EnvelopeDeliveries(samples, idOf, broker, ids)) == Grouped(samples, idOf, ids)
    ensures forall d: Delivery :: d in EnvelopeDeliveries(samples, idOf, broker, ids) ==>
      exists k :: 0 <= k < |ids| && ids[k] == idOf(d.sample.point) && d.error == broker(k)
  {
    if ids != [] {
      var n := |ids| - 1;
      EnvelopeDeliveriesGroups(samples, idOf, broker, ids[..n]);
      GroupMembers(samples, idOf, ids[n]);
      var front := EnvelopeDeliveries(samples, idOf, broker, ids[..n]);
      var back := WithError(Group(samples, idOf, ids[n]), broker(n));
      assert SamplesOf(front + back) == SamplesOf(front) + SamplesOf(back);
      assert SamplesOf(back) == Group(samples, idOf, ids[n]);
      forall d: Delivery | d in front + back
        ensures exists k :: 0 <= k < |ids| && ids[k] == idOf(d.sample.point) && d.error == broker(k)
      {
        if d in front {
          var k :| 0 <= k < n && ids[..n][k] == idOf(d.sample.point) && d.error == broker(k);
          assert ids[k] == idOf(d.sample.point);
        } else {
          assert d in back;
          assert d.sample in Group(samples, idOf, ids[n]);
          assert ids[n] == idOf(d.sample.point);
        }
      }
    }
  }

  // Whatever the broker answers and in either format, every sample handed over meets exactly one
  // fate: queued = published + failed = the batch size, and the deliveries are the batch rearranged.
  lemma BatchConserved(format: Format, samples: seq<PointSample>, idOf: PointConfig -> string, broker: Broker)
    ensures multiset(SamplesOf(Deliveries(format, samples, idOf, broker))) == multiset(samples)
    ensures var stats: PublishStats := StatsOf(Deliveries(format, samples, idOf, broker));
      stats.queued == |samples| && stats.published + stats.failed == |samples|
  {
    var ds := Deliveries(format, samples, idOf, broker);
    CountsAddUp(ds);
    if format == NetixEnvelope {
      EnvelopeDeliveriesGroups(samples, idOf, broker, Order(samples, idOf));
      GroupsPartition(samples, idOf);
      assert |multiset(SamplesOf(ds))| == |multiset(samples)|;
    } else {
      assert SamplesOf(ds) == samples;
    }
  }

  // The same seen from the deliveries alone: the batch in its order, or device by device, samples of
  // one device meeting one answer.
  ghost predicate Arranged(format: Format, samples: seq<PointSample>, idOf: PointConfig -> string, ds: seq<Delivery>) {
    match format
    case Scalar => SamplesOf(ds) == samples
    case NetixEnvelope => exists at :: ArrangedAt(samples, idOf, at, ds)
  }

  ghost predicate ArrangedAt(samples: seq<PointSample>, idOf: PointConfig -> string, at: seq<(nat, nat)>, ds: seq<Delivery>) {
    var ids := Order(samples, idOf);
    && Places(at, |ids|, SampleOf(samples, idOf, ids))
    && |ds| == |at|
    && (forall a :: 0 <= a < |at| ==> at[a].1 < |samples| && ds[a].sample == samples[at[a].1])
    && (forall a, b :: 0 <= a < b < |at| && at[a].0 == at[b].0 ==> ds[a].error == ds[b].error)
  }

  lemma DeliveredIsArranged(format: Format, samples: seq<PointSample>, idOf: PointConfig -> string,
                            broker: Broker, ds: seq<Delivery>)
    requires Delivered(format, samples, idOf, broker, ds)
    ensures Arranged(format, samples, idOf, ds)
  {
    match format
    case Scalar =>
    case NetixEnvelope =>
      var ids := Order(samples, idOf);
      var at :| DeliveredAt(samples, idOf, broker, ids, |ids|, at, ds);
      hide Places, Order;
      assert ArrangedAt(samples, idOf, at, ds);
  }

  lemma BatchCount(samples: seq<PointSample>, idOf: PointConfig -> string, broker: Broker)
    ensures |EnvelopeDeliveries(samples, idOf, broker, Order(samples, idOf))| == |samples|
  {
    BatchConserved(NetixEnvelope, samples, idOf, broker);
  }

  // An envelope is stamped with the latest of its samples, or 0 when none is later than that.
  lemma {:induction false} EnvelopeTimeIsLatest(samples: seq<PointSample>)
    ensures EnvelopeTime(samples) >= 0
    ensures forall s :: s in samples ==> s.timestampMs <= EnvelopeTime(samples)
    ensures EnvelopeTime(samples) == 0 || exists s :: s in samples && s.timestampMs == EnvelopeTime(samples)
  {
    if samples != [] {
      EnvelopeTimeIsLatest(samples[..|samples| - 1]);
      assert samples == samples[..|samples| - 1] + [samples[|samples| - 1]];
    }
  }

  // The device's samples in batch order, stamped with their latest time or 0.
  ghost predicate IsEnvelope(samples: seq<PointSample>, idOf: PointConfig -> string, e: Envelope) {
    && Picks(samples, OfDevice(idOf, e.id), Itself(), e.samples)
    && e.timeMs >= 0
    && (forall s :: s in e.samples ==> s.timestampMs <= e.timeMs)
    && (e.timeMs == 0 || exists s :: s in e.samples && s.timestampMs == e.timeMs)
  }

  lemma EnvelopeOfGroup(samples: seq<PointSample>, idOf: PointConfig -> string, id: string)
    ensures var group := Group(samples, idOf, id); IsEnvelope(samples, idOf, Envelope(id, EnvelopeTime(group), group))
  {
    hide Picks, Group, EnvelopeTime;
    GroupPicks(samples, idOf, id);
    EnvelopeTimeIsLatest(Group(samples, idOf, id));
  }

  // ---- The publishing loops ----

  method PublishScalar(samples: seq<PointSample>, ghost idOf: PointConfig -> string, broker: Broker, table0: StatusTable)
    returns (stats: PublishStats, table: StatusTable, deliveries: seq<Delivery>)
    ensures deliveries == Deliveries(Scalar, samples, idOf, broker)
    ensures Delivered(Scalar, samples, idOf, broker, deliveries)
    ensures stats == StatsOf(deliveries) && table == SettleAll(table0, deliveries)
  {
    hide Delivered, Identity;
    stats, table, deliveries := PublishStats(0, 0, 0), table0, [];
    for k := 0 to |samples|
      invariant deliveries == ScalarDeliveries(samples[..k], broker)
      invariant stats == StatsOf(deliveries) && table == SettleAll(table0, deliveries)
    {
      var sample := samples[k];
      var id := Identity(sample.point);
      var answer := broker(k);
      stats := stats.(queued := stats.queued + 1);
      if answer.None? {
        stats := stats.(published := stats.published + 1);
      } else {
        stats := stats.(failed := stats.failed + 1);
      }
      if id in table {
        table := table[id := table[id].RecordPublish(answer)];
      }
      ghost var before := deliveries;
      deliveries := deliveries + [Delivery(sample, answer)];
      assert deliveries[..|deliveries| - 1] == before;
    }
    assert samples[..|samples|] == samples;
    DeliveriesDelivered(Scalar, samples, idOf, broker);
  }

  method GroupSamples(samples: seq<PointSample>, idOf: PointConfig -> string)
    returns (order: seq<string>, groups: map<string, seq<PointSample>>)
    ensures order == Order(samples, idOf)
    ensures groups.Keys == set id | id in order
    ensures forall id :: id in groups ==> groups[id] == Group(samples, idOf, id)
  {
    order, groups := [], map[];
    for k := 0 to |samples|
      invariant order == Order(samples[..k], idOf)
      invariant groups.Keys == set id | id in order
      invariant forall id :: id in groups ==> groups[id] == Group(samples[..k], idOf, id)
      invariant forall id :: id !in groups ==> Group(samples[..k], idOf, id) == []
    {
      assert samples[..k + 1][..k] == samples[..k];
      var id := idOf(samples[k].point);
      if id !in groups {
        order := order + [id];
        groups := groups[id := []];
      }
      groups := groups[id := groups[id] + [samples[k]]];
    }
    assert samples[..|samples|] == samples;
  }

  method PublishEnvelopes(samples: seq<PointSample>, idOf: PointConfig -> string, broker: Broker, table0: StatusTable)
    returns (stats: PublishStats, table: StatusTable, deliveries: seq<Delivery>, envelopes: seq<Envelope>)
    ensures deliveries == Deliveries(NetixEnvelope, samples, idOf, broker)
    ensures Delivered(NetixEnvelope, samples, idOf, broker, deliveries)
    ensures stats == StatsOf(deliveries) && table == SettleAll(table0, deliveries)
    ensures |envelopes| == |Order(samples, idOf)|
    ensures forall k :: 0 <= k < |envelopes| ==> envelopes[k].id == Order(samples, idOf)[k]
    ensures forall k :: 0 <= k < |envelopes| ==> IsEnvelope(samples, idOf, envelopes[k])
  {
    hide Group, Order, Settle, Delivered, IsEnvelope;
    var order, groups := GroupSamples(samples, idOf);
    table, deliveries, envelopes := table0, [], [];
    var published, failed := 0, 0;
    for k := 0 to |order|
      invariant deliveries == EnvelopeDeliveries(samples, idOf, broker, order[..k])
      invariant published == CountOk(deliveries) && failed == CountFailed(deliveries)
      invariant table == SettleAll(table0, deliveries)
      invariant |envelopes| == k
      invariant forall i :: 0 <= i < k ==> envelopes[i].id == order[i] && IsEnvelope(samples, idOf, envelopes[i])
    {
      assert order[..k + 1][..k] == order[..k];
      var group := groups[order[k]];
      var timeMs := LatestTime(group);
      EnvelopeOfGroup(samples, idOf, order[k]);
      envelopes := envelopes + [Envelope(order[k], timeMs, group)];
      var answer := broker(k);
      var fates;
      table, fates := SettleGroup(group, answer, table);
      if answer.None? {
        published := published + |group|;
      } else {
        failed := failed + |group|;
      }
      AddGroup(table0, deliveries, group, answer);
      deliveries := deliveries + fates;
    }
    assert order[..|order|] == order;
    BatchCount(samples, idOf, broker);
    DeliveriesDelivered(NetixEnvelope, samples, idOf, broker);
    stats := PublishStats(|samples|, published, failed);
  }

  lemma AddGroup(table: StatusTable, ds: seq<Delivery>, group: seq<PointSample>, answer: Option<string>)
    ensures var fates := WithError(group, answer);
      && SettleAll(table, ds + fates) == SettleAll(SettleAll(table, ds), fates)
      && CountOk(ds + fates) == CountOk(ds) + (if answer.None? then |group| else 0)
      && CountFailed(ds + fates) == CountFailed(ds) + (if answer.None? then 0 else |group|)
  {
    var fates := WithError(group, answer);
    SettleAllSplits(table, ds, fates);
    CountsSplit(ds, fates);
    UniformCounts(group, answer);
  }

  method LatestTime(group: seq<PointSample>) returns (timeMs: int)
    ensures timeMs == EnvelopeTime(group)
  {
    timeMs := 0;
    for k := 0 to |group|
      invariant timeMs == EnvelopeTime(group[..k])
    {
      assert group[..k + 1][..k] == group[..k];
      if group[k].timestampMs > timeMs {
        timeMs := group[k].timestampMs;
      }
    }
    assert group[..|group|] == group;
  }

  method SettleGroup(group: seq<PointSample>, answer: Option<string>, table0: StatusTable)
    returns (table: StatusTable, fates: seq<Delivery>)
    ensures fates == WithError(group, answer) && table == SettleAll(table0, fates)
  {
    table, fates := table0, [];
    for k := 0 to |group|
      invariant fates == WithError(group[..k], answer)
      invariant table == SettleAll(table0, fates)
    {
      var id := Identity(group[k].point);
      if id in table {
        table := table[id := table[id].RecordPublish(answer)];
      }
      ghost var before := fates;
      fates := fates + [Delivery(group[k], answer)];
      assert fates[..|fates| - 1] == before;
    }
    assert group[..|group|] == group;
  }

  lemma {:induction false} UniformCounts(group: seq<PointSample>, answer: Option<string>)
    ensures CountOk(WithError(group, answer)) == if answer.None? then |group| else 0
    ensures CountFailed(WithError(group, answer)) == if answer.None? then 0 else |group|
  {
    if group != [] {
      UniformCounts(group[..|group| - 1], answer);
      assert WithError(group, answer)[..|group| - 1] == WithError(group[..|group| - 1], answer);
    }
  }
}
