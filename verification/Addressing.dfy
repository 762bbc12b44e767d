// Every simulated point can be reached under its own address, and no other.
module Addressing {
  import opened Wrappers
  import opened Profiles
  import opened Simulation
  import opened Registry
  import Expansion

  predicate SameAddress(p: SimulatedPoint, q: SimulatedPoint) {
    p.objectType == q.objectType && p.instance == q.instance
  }

  ghost predicate Unique(points: seq<SimulatedPoint>) {
    forall j, k :: 0 <= j < k < |points| ==> !SameAddress(points[j], points[k])
  }

  predicate Canonic(p: SimulatedPoint) {
    Canonical(p.objectType) == p.objectType && KindOf(p.objectType) == Some(p.kind)
  }

  // What the simulation needs so that addresses work: distinct device ids and distinct
  // (object type, instance) pairs, the object types in canonical form.
  ghost predicate Addressable(devices: seq<SimulatedDevice>) {
    && (forall i, j :: 0 <= i < j < |devices| ==> devices[i].deviceId != devices[j].deviceId)
    && (forall i, k :: 0 <= i < |devices| && 0 <= k < |devices[i].points| ==> Canonic(devices[i].points[k]))
    && Unique(AllPoints(devices))
  }

  // ---- Positions ----

  function Offset(devices: seq<SimulatedDevice>, i: nat): nat
    requires i <= |devices|
  {
    |AllPoints(devices[..i])|
  }

  lemma {:induction false} FlatAt(devices: seq<SimulatedDevice>, i: nat, k: nat)
    requires i < |devices| && k < |devices[i].points|
    ensures Offset(devices, i) + k < |AllPoints(devices)|
    ensures AllPoints(devices)[Offset(devices, i) + k] == devices[i].points[k]
    decreases |devices|
  {
    var n := |devices| - 1;
    if i < n {
      FlatAt(devices[..n], i, k);
      assert devices[..n][..i] == devices[..i];
    }
  }

  lemma {:induction false} OffsetsAscend(devices: seq<SimulatedDevice>, i: nat, j: nat)
    requires i < j <= |devices|
    ensures Offset(devices, i) + |devices[i].points| <= Offset(devices, j)
    decreases j
  {
    assert devices[..j][..j - 1] == devices[..j - 1];
    if i < j - 1 {
      OffsetsAscend(devices, i, j - 1);
    }
  }

  // No two positions hold points of one address.
  lemma DistinctPositions(devices: seq<SimulatedDevice>, i: nat, k: nat, j: nat, m: nat)
    requires Unique(AllPoints(devices))
    requires i < |devices| && k < |devices[i].points| && j < |devices| && m < |devices[j].points|
    requires SameAddress(devices[i].points[k], devices[j].points[m])
    ensures i == j && k == m
  {
    FlatAt(devices, i, k);
    FlatAt(devices, j, m);
    if i < j {
      OffsetsAscend(devices, i, j);
      assert false;
    } else if j < i {
      OffsetsAscend(devices, j, i);
      assert false;
    }
  }

  // ---- Lookup inside the simulation ----

  lemma {:induction false} FindPointFinds(points: seq<SimulatedPoint>, objectType: string, instance: nat)
    ensures var r := FindPoint(points, objectType, instance);
      (r.Some? ==> r.value in points && r.value.objectType == Canonical(objectType) && r.value.instance == instance) &&
      (r.None? ==> forall p :: p in points ==> !(p.objectType == Canonical(objectType) && p.instance == instance))
  {
    if points != [] {
      FindPointFinds(points[1..], objectType, instance);
    }
  }

  lemma {:induction false} FindDeviceFinds(devices: seq<SimulatedDevice>, i: nat)
    requires i < |devices|
    requires forall j, k :: 0 <= j < k < |devices| ==> devices[j].deviceId != devices[k].deviceId
    ensures FindDevice(devices, devices[i].deviceId) == Some(devices[i])
  {
    if i > 0 {
      assert devices[0].deviceId != devices[i].deviceId;
      FindDeviceFinds(devices[1..], i - 1);
    }
  }

  // The simulation finds every point under its device, type and instance.
  lemma NeutralFindsEach(devices: seq<SimulatedDevice>, i: nat, k: nat)
    requires Addressable(devices) && i < |devices| && k < |devices[i].points|
    ensures var p := devices[i].points[k];
      NeutralValue(devices, devices[i].deviceId, p.objectType, p.instance) == Some(p.value)
  {
    var p := devices[i].points[k];
    assert Canonic(p);
    FindDeviceFinds(devices, i);
    FindPointFinds(devices[i].points, p.objectType, p.instance);
    var r := FindPoint(devices[i].points, p.objectType, p.instance);
    assert p in devices[i].points;
    var m :| 0 <= m < |devices[i].points| && devices[i].points[m] == r.value;
    DistinctPositions(devices, i, k, i, m);
  }

  // ---- Lookup through the BACnet registry ----

  // The text of a type can be told from the type.
  lemma TypeTellsText(p: SimulatedPoint)
    requires Canonic(p)
    ensures p.objectType == TextOf(TypeOf(p))
  {
    hide Canonical;
  }

  lemma PointTypeIsNoDevice(p: SimulatedPoint)
    ensures TypeOf(p) != DeviceObject
  {
  }

  lemma {:induction false} FindEntryFinds(entries: seq<PointEntry>, t: ObjectType, instance: nat)
    ensures var r := FindEntry(entries, t, instance);
      (r.Some? ==> r.value in entries && r.value.objectType == t && r.value.instance == instance) &&
      (r.None? ==> forall e :: e in entries ==> !(e.objectType == t && e.instance == instance))
  {
    if entries != [] {
      FindEntryFinds(entries[1..], t, instance);
    }
  }

  lemma RegistryMembers(points: seq<SimulatedPoint>, e: PointEntry)
    ensures e in SortEntries(EntriesOf(points)) <==> exists m :: 0 <= m < |points| && EntryOf(points[m]) == e
  {
    SortSorts(EntriesOf(points));
    assert e in SortEntries(EntriesOf(points)) <==> e in multiset(SortEntries(EntriesOf(points)));
    assert e in EntriesOf(points) <==> e in multiset(EntriesOf(points));
    if m :| 0 <= m < |points| && EntryOf(points[m]) == e {
      assert EntriesOf(points)[m] == e;
    }
  }

  // A device's registry entry answers for an address exactly when the device holds it.
  lemma DeviceAnswers(devices: seq<SimulatedDevice>, i: nat, k: nat, j: nat)
    requires Addressable(devices) && i < |devices| && k < |devices[i].points| && j < |devices|
    ensures var p := devices[i].points[k];
      FindEntry(BuildRegistry(devices)[j].points, TypeOf(p), p.instance) == if j == i then Some(EntryOf(p)) else None
  {
    hide Unique, KindOf, TypeOf, SortEntries, EntriesOf, AllPoints;
    var p := devices[i].points[k];
    var entries := BuildRegistry(devices)[j].points;
    var r := FindEntry(entries, TypeOf(p), p.instance);
    FindEntryFinds(entries, TypeOf(p), p.instance);
    if j == i {
      RegistryMembers(devices[i].points, EntryOf(p));
    }
    if r.Some? {
      RegistryMembers(devices[j].points, r.value);
      var m :| 0 <= m < |devices[j].points| && EntryOf(devices[j].points[m]) == r.value;
      var q := devices[j].points[m];
      assert Canonic(p) && Canonic(q);
      TypeTellsText(p);
      TypeTellsText(q);
      DistinctPositions(devices, i, k, j, m);
    }
  }

  lemma {:induction false} ResolveAt(read: PropertyRead, registry: seq<DeviceEntry>, devices: seq<SimulatedDevice>,
                                     i: nat, e: PointEntry)
    requires i < |registry| && FindEntry(registry[i].points, read.objectType, read.instance) == Some(e)
    requires forall j :: 0 <= j < i ==> FindEntry(registry[j].points, read.objectType, read.instance) == None
    ensures ResolvePoint(read, registry, devices) == ReadPoint(devices, registry[i].deviceId, e, read.property)
    decreases i
  {
    if i > 0 {
      ResolveAt(read, registry[1..], devices, i - 1, e);
    }
  }

  lemma ResolvesToEntry(devices: seq<SimulatedDevice>, i: nat, k: nat, property: Property)
    requires Addressable(devices) && i < |devices| && k < |devices[i].points|
    ensures var p := devices[i].points[k];
      Resolve(PropertyRead(TypeOf(p), p.instance, property, None), BuildRegistry(devices), devices) ==
      ReadPoint(devices, devices[i].deviceId, EntryOf(p), property)
  {
    hide Addressable, TypeOf, FindEntry, ReadPoint, ReadDevice, SortEntries;
    var p := devices[i].points[k];
    PointTypeIsNoDevice(p);
    forall j | 0 <= j < |devices|
      ensures FindEntry(BuildRegistry(devices)[j].points, TypeOf(p), p.instance) == if j == i then Some(EntryOf(p)) else None
    {
      DeviceAnswers(devices, i, k, j);
    }
    ResolveAt(PropertyRead(TypeOf(p), p.instance, property, None), BuildRegistry(devices), devices, i, EntryOf(p));
  }

  // How a point's value reads: binary objects give 0 or 1 as an enumeration.
  predicate Shows(p: SimulatedPoint, v: PropertyValue) {
    match p.value
    case Real(r) => v == RealValue(r)
    case Unsigned(u) => v == UnsignedValue(u)
    case Boolean(b) => v == if KindOf(p.objectType) == Some(Binary) then Enumerated(if b then 1 else 0) else BooleanValue(b)
  }

  lemma PresentedShows(p: SimulatedPoint)
    requires Canonic(p)
    ensures Shows(p, Presented(TypeOf(p), p.value))
  {
  }

  // A BACnet read of a point's type and instance, scanning all devices, reaches that very point.
  lemma BacnetReadsEach(devices: seq<SimulatedDevice>, i: nat, k: nat)
    requires Addressable(devices) && i < |devices| && k < |devices[i].points|
    ensures var p := devices[i].points[k];
      var present := Resolve(PropertyRead(TypeOf(p), p.instance, PresentValue, None), BuildRegistry(devices), devices);
      && present == Some(Presented(TypeOf(p), p.value)) && Shows(p, present.value)
      && Resolve(PropertyRead(TypeOf(p), p.instance, Description, None), BuildRegistry(devices), devices)
           == Some(TextValue(p.name))
      && Resolve(PropertyRead(TypeOf(p), p.instance, ObjectIdentifier, None), BuildRegistry(devices), devices)
           == Some(ObjectIdValue(TypeOf(p), p.instance))
  {
    NeutralFindsEach(devices, i, k);
    ResolvesToEntry(devices, i, k, PresentValue);
    ResolvesToEntry(devices, i, k, Description);
    ResolvesToEntry(devices, i, k, ObjectIdentifier);
    assert Canonic(devices[i].points[k]);
    PresentedShows(devices[i].points[k]);
    hide Addressable, TypeOf, NeutralValue, Presented, Resolve, Shows, Canonic;
  }

  lemma {:induction false} ResolveNothing(read: PropertyRead, registry: seq<DeviceEntry>, devices: seq<SimulatedDevice>)
    requires forall j :: 0 <= j < |registry| ==> FindEntry(registry[j].points, read.objectType, read.instance) == None
    ensures ResolvePoint(read, registry, devices) == None
  {
    if registry != [] {
      ResolveNothing(read, registry[1..], devices);
    }
  }

  // And a read of an address that no point has is refused.
  lemma BacnetRefusesOthers(devices: seq<SimulatedDevice>, t: ObjectType, instance: nat, property: Property)
    requires t != DeviceObject
    requires forall i, k :: 0 <= i < |devices| && 0 <= k < |devices[i].points| ==>
      !(TypeOf(devices[i].points[k]) == t && devices[i].points[k].instance == instance)
    ensures Resolve(PropertyRead(t, instance, property, None), BuildRegistry(devices), devices) == None
  {
    hide TypeOf, SortEntries, EntriesOf;
    var registry := BuildRegistry(devices);
    forall j | 0 <= j < |registry|
      ensures FindEntry(registry[j].points, t, instance) == None
    {
      forall e | e in registry[j].points
        ensures !(e.objectType == t && e.instance == instance)
      {
        RegistryMembers(devices[j].points, e);
      }
      FindEntryFinds(registry[j].points, t, instance);
    }
    ResolveNothing(PropertyRead(t, instance, property, None), registry, devices);
  }

  // ---- Walking a device's object list ----

  lemma {:induction false} NoRepeatCounts<T>(s: seq<T>, x: T)
    requires forall i, j :: 0 <= i < j < |s| ==> s[i] != s[j]
    ensures multiset(s)[x] <= 1
  {
    if s != [] {
      NoRepeatCounts(s[..|s| - 1], x);
      assert s == s[..|s| - 1] + [s[|s| - 1]];
      if s[|s| - 1] == x {
        assert x !in s[..|s| - 1];
      }
    }
  }

  lemma RepeatCounts<T>(s: seq<T>, i: nat, j: nat)
    requires i < j < |s| && s[i] == s[j]
    ensures multiset(s)[s[i]] >= 2
  {
    assert s == s[..i] + [s[i]] + s[i + 1..j] + [s[j]] + s[j + 1..];
  }

  lemma ListEntriesDistinct(devices: seq<SimulatedDevice>, i: nat, a: nat, b: nat)
    requires Addressable(devices) && i < |devices|
    requires a < b < |SortEntries(EntriesOf(devices[i].points))|
    ensures SortEntries(EntriesOf(devices[i].points))[a] != SortEntries(EntriesOf(devices[i].points))[b]
  {
    var plain := EntriesOf(devices[i].points);
    var entries := SortEntries(plain);
    forall k, m | 0 <= k < m < |plain|
      ensures plain[k] != plain[m]
    {
      if plain[k] == plain[m] {
        DistinctPositions(devices, i, k, i, m);
      }
    }
    hide Addressable, SortEntries, EntriesOf;
    SortSorts(plain);
    NoRepeatCounts(plain, entries[a]);
    if entries[a] == entries[b] {
      RepeatCounts(entries, a, b);
    }
  }

  lemma {:induction false} DeviceByIdFinds(devices: seq<SimulatedDevice>, registry: seq<DeviceEntry>, i: nat)
    requires i < |registry| <= |devices|
    requires forall j :: 0 <= j < |registry| ==> registry[j].deviceId == devices[j].deviceId
    requires forall j, k :: 0 <= j < k < |devices| ==> devices[j].deviceId != devices[k].deviceId
    ensures DeviceById(registry, devices[i].deviceId) == Some(registry[i])
    decreases |registry|
  {
    if i < |registry| - 1 {
      DeviceByIdFinds(devices, registry[..|registry| - 1], i);
    }
  }

  function ListRead(d: SimulatedDevice, index: nat): PropertyRead {
    PropertyRead(DeviceObject, d.deviceId, ObjectList, Some(index))
  }

  lemma ListReads(devices: seq<SimulatedDevice>, i: nat, n: nat)
    requires Addressable(devices) && i < |devices|
    ensures |SortEntries(EntriesOf(devices[i].points))| == |devices[i].points|
    ensures Resolve(ListRead(devices[i], n), BuildRegistry(devices), devices) ==
      var entries := SortEntries(EntriesOf(devices[i].points));
      if n == 0 then Some(UnsignedValue(|entries|))
      else if n <= |entries| then Some(ObjectIdValue(entries[n - 1].objectType, entries[n - 1].instance))
      else None
  {
    hide SortEntries, AllPoints, Canonic;
    var plain := EntriesOf(devices[i].points);
    DeviceByIdFinds(devices, BuildRegistry(devices), i);
    SortSorts(plain);
    assert |multiset(SortEntries(plain))| == |multiset(plain)|;
  }

  // Reading a device's object list at 0 gives its length n; reading it at 1..n names each of the
  // device's points exactly once (entry a names point visit[a]), by an address that reads back that
  // point's value; beyond n there is nothing.
  lemma ObjectListWalk(devices: seq<SimulatedDevice>, i: nat) returns (visit: seq<nat>)
    requires Addressable(devices) && i < |devices|
    ensures |visit| == |devices[i].points|
    ensures forall a :: 0 <= a < |visit| ==> visit[a] < |devices[i].points|
    ensures forall a, b :: 0 <= a < b < |visit| ==> visit[a] != visit[b]
    ensures Resolve(ListRead(devices[i], 0), BuildRegistry(devices), devices) == Some(UnsignedValue(|visit|))
    ensures forall a :: 0 <= a < |visit| ==>
      var p := devices[i].points[visit[a]];
      && Resolve(ListRead(devices[i], a + 1), BuildRegistry(devices), devices) == Some(ObjectIdValue(TypeOf(p), p.instance))
      && Resolve(PropertyRead(TypeOf(p), p.instance, PresentValue, None), BuildRegistry(devices), devices)
           == Some(Presented(TypeOf(p), p.value))
    ensures forall n: nat :: n > |visit| ==> Resolve(ListRead(devices[i], n), BuildRegistry(devices), devices) == None
  {
    hide Addressable, SortEntries, EntriesOf, BuildRegistry, Resolve, TypeOf, Presented;
    var registry := BuildRegistry(devices);
    var entries := SortEntries(EntriesOf(devices[i].points));
    ListReads(devices, i, 0);
    visit := [];
    for a := 0 to |entries|
      invariant |visit| == a
      invariant forall b :: 0 <= b < a ==> visit[b] < |devices[i].points| && EntryOf(devices[i].points[visit[b]]) == entries[b]
    {
      RegistryMembers(devices[i].points, entries[a]);
      var m :| 0 <= m < |devices[i].points| && EntryOf(devices[i].points[m]) == entries[a];
      visit := visit + [m];
    }
    forall a, b | 0 <= a < b < |visit|
      ensures visit[a] != visit[b]
    {
      ListEntriesDistinct(devices, i, a, b);
    }
    forall a | 0 <= a < |visit|
      ensures var p := devices[i].points[visit[a]];
        && Resolve(ListRead(devices[i], a + 1), registry, devices) == Some(ObjectIdValue(TypeOf(p), p.instance))
        && Resolve(PropertyRead(TypeOf(p), p.instance, PresentValue, None), registry, devices) == Some(Presented(TypeOf(p), p.value))
    {
      ListReads(devices, i, a + 1);
      BacnetReadsEach(devices, i, visit[a]);
    }
    forall n: nat | n > |visit|
      ensures Resolve(ListRead(devices[i], n), registry, devices) == None
    {
      ListReads(devices, i, n);
    }
  }

  // ---- Ticking ----

  ghost predicate SameLayout(before: seq<SimulatedDevice>, after: seq<SimulatedDevice>) {
    && |before| == |after|
    && forall i :: 0 <= i < |before| ==>
         after[i].deviceId == before[i].deviceId && SameAddresses(before[i].points, after[i].points)
  }

  lemma {:induction false} SameLayoutFlat(before: seq<SimulatedDevice>, after: seq<SimulatedDevice>)
    requires SameLayout(before, after)
    ensures SameAddresses(AllPoints(before), AllPoints(after))
  {
    if before != [] {
      SameLayoutFlat(before[..|before| - 1], after[..|after| - 1]);
    }
  }

  // Ticks change values only: whatever could be addressed before can be addressed afterwards.
  lemma TicksKeepAddresses(before: seq<SimulatedDevice>, after: seq<SimulatedDevice>)
    requires SameLayout(before, after) && Addressable(before)
    ensures Addressable(after)
  {
    SameLayoutFlat(before, after);
    var p, q := AllPoints(before), AllPoints(after);
    forall j, k | 0 <= j < k < |q|
      ensures !SameAddress(q[j], q[k])
    {
      assert !SameAddress(p[j], p[k]);
    }
    forall i, k | 0 <= i < |after| && 0 <= k < |after[i].points|
      ensures Canonic(after[i].points[k])
    {
      assert Canonic(before[i].points[k]);
    }
  }

  // ---- From a configuration to its addresses ----

  lemma {:induction false} KeptSplits(a: seq<Expansion.PointSpec>, b: seq<Expansion.PointSpec>)
    ensures Kept(a + b) == Kept(a) + Kept(b)
  {
    if b == [] {
      assert a + b == a;
    } else {
      assert (a + b)[..|a + b| - 1] == a + b[..|b| - 1];
      KeptSplits(a, b[..|b| - 1]);
    }
  }

  lemma {:induction false} BuildKeeps(devices: seq<Expansion.DeviceSpec>)
    ensures AllPoints(Build(devices)) == Kept(Expansion.PointsOf(devices))
  {
    if devices == [] {
      assert Build(devices) == [];
    } else {
      hide Kept;
      var n := |devices| - 1;
      BuildKeeps(devices[..n]);
      assert Build(devices)[..n] == Build(devices[..n]);
      KeptSplits(Expansion.PointsOf(devices[..n]), devices[n].points);
    }
  }

  lemma {:induction false} KeptMembers(specs: seq<Expansion.PointSpec>, p: SimulatedPoint)
    ensures p in Kept(specs) <==> exists j :: 0 <= j < |specs| && PointFromSpec(specs[j]) == Some(p)
  {
    hide PointFromSpec;
    if specs != [] {
      var n := |specs| - 1;
      KeptMembers(specs[..n], p);
      if j :| 0 <= j < |specs| && PointFromSpec(specs[j]) == Some(p) {
        assert j < n ==> specs[..n][j] == specs[j];
      }
      if j :| 0 <= j < n && PointFromSpec(specs[..n][j]) == Some(p) {
        assert specs[j] == specs[..n][j];
      }
    }
  }

  lemma PointCanonic(s: Expansion.PointSpec)
    requires PointFromSpec(s).Some?
    ensures Canonic(PointFromSpec(s).value)
  {
    CanonicalIdempotent(s.objectType);
  }

  lemma {:induction false} KeptAt(specs: seq<Expansion.PointSpec>, j: nat)
    requires j < |specs| && PointFromSpec(specs[j]).Some?
    ensures |Kept(specs[..j])| < |Kept(specs)| && Kept(specs)[|Kept(specs[..j])|] == PointFromSpec(specs[j]).value
  {
    assert specs == specs[..j + 1] + specs[j + 1..];
    KeptSplits(specs[..j + 1], specs[j + 1..]);
    assert specs[..j + 1][..j] == specs[..j];
  }

  lemma KeptAscends(specs: seq<Expansion.PointSpec>, j: nat, k: nat)
    requires j < k < |specs| && PointFromSpec(specs[j]).Some?
    ensures |Kept(specs[..j])| < |Kept(specs[..k])|
  {
    KeptAt(specs[..k], j);
    assert specs[..k][..j] == specs[..j];
  }

  // One way of writing each known object type: the counters go by the text as written.
  ghost predicate OneSpelling(specs: seq<Expansion.PointSpec>) {
    forall j, k :: 0 <= j < |specs| && 0 <= k < |specs| ==>
      (KindOf(specs[j].objectType).Some? && Canonical(specs[j].objectType) == Canonical(specs[k].objectType) ==>
         specs[j].objectType == specs[k].objectType)
  }

  lemma PointAddress(s: Expansion.PointSpec)
    ensures PointFromSpec(s).Some? <==> KindOf(s.objectType).Some?
    ensures PointFromSpec(s).Some? ==>
      PointFromSpec(s).value.objectType == Canonical(s.objectType) && PointFromSpec(s).value.instance == s.instance
  {
    hide KindOf, Canonical;
  }

  lemma SameKind(t: string, u: string)
    requires Canonical(t) == Canonical(u)
    ensures KindOf(t) == KindOf(u)
  {
    hide Canonical;
  }

  lemma {:induction false} OneSpellingUnique(specs: seq<Expansion.PointSpec>)
    requires Expansion.Numbered(specs) && OneSpelling(specs)
    ensures Unique(Kept(specs))
  {
    if specs != [] {
      hide PointFromSpec, KindOf, Canonical;
      var n := |specs| - 1;
      var front := specs[..n];
      assert Kept(specs) == Kept(front) + if PointFromSpec(specs[n]).Some? then [PointFromSpec(specs[n]).value] else [];
      Expansion.NumberedFront(specs);
      OneSpellingUnique(front);
      PointAddress(specs[n]);
      if PointFromSpec(specs[n]).Some? {
        var p := PointFromSpec(specs[n]).value;
        forall i | 0 <= i < |Kept(front)|
          ensures !SameAddress(Kept(front)[i], p)
        {
          assert Kept(front)[i] in Kept(front);
          KeptMembers(front, Kept(front)[i]);
          var j :| 0 <= j < n && PointFromSpec(front[j]) == Some(Kept(front)[i]);
          PointAddress(specs[j]);
          if specs[j].objectType == specs[n].objectType {
            Expansion.InstancesAscend(specs, j, n);
          }
        }
      }
    }
  }

  lemma {:induction false} FirstOfType(specs: seq<Expansion.PointSpec>, k: nat) returns (j: nat)
    requires Expansion.Numbered(specs) && k < |specs|
    ensures j <= k && specs[j].objectType == specs[k].objectType && specs[j].instance == 1
    decreases k
  {
    var t := specs[k].objectType;
    if Expansion.CountType(specs[..k], t) == 0 {
      j := k;
    } else {
      var m := CountedIsThere(specs[..k], t);
      j := FirstOfType(specs, m);
    }
  }

  lemma {:induction false} CountedIsThere(specs: seq<Expansion.PointSpec>, t: string) returns (m: nat)
    requires Expansion.CountType(specs, t) > 0
    ensures m < |specs| && specs[m].objectType == t
  {
    var n := |specs| - 1;
    if specs[n].objectType == t {
      m := n;
    } else {
      m := CountedIsThere(specs[..n], t);
    }
  }

  lemma TwoSpellingsClash(specs: seq<Expansion.PointSpec>)
    requires Expansion.Numbered(specs) && !OneSpelling(specs)
    ensures !Unique(Kept(specs))
  {
    var a, b :| 0 <= a < |specs| && 0 <= b < |specs| && KindOf(specs[a].objectType).Some? &&
      Canonical(specs[a].objectType) == Canonical(specs[b].objectType) &&
      specs[a].objectType != specs[b].objectType;
    var j := FirstOfType(specs, a);
    var k := FirstOfType(specs, b);
    hide PointFromSpec, KindOf, Canonical, Expansion.Numbered, OneSpelling;
    SameKind(specs[j].objectType, specs[k].objectType);
    PointAddress(specs[j]);
    PointAddress(specs[k]);
    KeptAt(specs, j);
    KeptAt(specs, k);
    if j < k {
      KeptAscends(specs, j, k);
    } else {
      KeptAscends(specs, k, j);
    }
  }

  lemma BuiltCanonic(devices: seq<Expansion.DeviceSpec>, i: nat, k: nat)
    requires i < |devices| && k < |Build(devices)[i].points|
    ensures Canonic(Build(devices)[i].points[k])
  {
    hide PointFromSpec, Canonic;
    var p := Build(devices)[i].points[k];
    assert p in Kept(devices[i].points);
    KeptMembers(devices[i].points, p);
    var j :| 0 <= j < |devices[i].points| && PointFromSpec(devices[i].points[j]) == Some(p);
    PointCanonic(devices[i].points[j]);
  }

  // An object type some emitted point is configured with.
  ghost predicate Emits(cfg: Expansion.SimulatorConfig, t: string) {
    exists i, k :: 0 <= i < |cfg.instances| && cfg.instances[i].count > 0 && cfg.instances[i].template in cfg.templates &&
      0 <= k < |cfg.templates[cfg.instances[i].template]| && cfg.templates[cfg.instances[i].template][k].objectType == t
  }

  lemma {:induction false} PointsOfMembers(devices: seq<Expansion.DeviceSpec>, p: Expansion.PointSpec)
    ensures p in Expansion.PointsOf(devices) <==> exists q :: 0 <= q < |devices| && p in devices[q].points
  {
    if devices != [] {
      var n := |devices| - 1;
      PointsOfMembers(devices[..n], p);
      if q :| 0 <= q < |devices| && p in devices[q].points {
        assert q < n ==> devices[..n][q] == devices[q];
      }
    }
  }

  lemma EmittedIsListed(cfg: Expansion.SimulatorConfig, devices: seq<Expansion.DeviceSpec>, t: string)
    requires Expansion.Expanded(cfg, Ok(devices)) && Emits(cfg, t)
    ensures exists p :: p in Expansion.PointsOf(devices) && p.objectType == t
  {
    hide Expansion.Numbered, Expansion.DeviceId;
    var i, k :| 0 <= i < |cfg.instances| && cfg.instances[i].count > 0 && cfg.instances[i].template in cfg.templates &&
      0 <= k < |cfg.templates[cfg.instances[i].template]| && cfg.templates[cfg.instances[i].template][k].objectType == t;
    var slots := Expansion.Slots(cfg.instances);
    Expansion.SlotsListed(cfg.instances, Expansion.Slot(i, 0));
    var q :| 0 <= q < |slots| && slots[q] == Expansion.Slot(i, 0);
    assert Expansion.MatchesSlot(cfg, devices[q], slots[q]);
    assert Expansion.FromTemplate(devices[q].points[k], cfg.templates[cfg.instances[i].template][k]);
    PointsOfMembers(devices, devices[q].points[k]);
  }

  lemma ListedIsEmitted(cfg: Expansion.SimulatorConfig, devices: seq<Expansion.DeviceSpec>, p: Expansion.PointSpec)
    requires Expansion.Expanded(cfg, Ok(devices)) && p in Expansion.PointsOf(devices)
    ensures Emits(cfg, p.objectType)
  {
    hide Expansion.Numbered, Expansion.DeviceId;
    PointsOfMembers(devices, p);
    var q :| 0 <= q < |devices| && p in devices[q].points;
    var k :| 0 <= k < |devices[q].points| && devices[q].points[k] == p;
    var slot := Expansion.Slots(cfg.instances)[q];
    assert Expansion.MatchesSlot(cfg, devices[q], slot);
    assert slot in Expansion.Slots(cfg.instances);
    Expansion.SlotsListed(cfg.instances, slot);
    var template := cfg.templates[cfg.instances[slot.blockIdx].template];
    assert Expansion.FromTemplate(p, template[k]);
  }

  // Each known object type is written in one way only.
  ghost predicate OneSpellingEach(cfg: Expansion.SimulatorConfig) {
    forall t, u :: Emits(cfg, t) && Emits(cfg, u) && KindOf(t).Some? && Canonical(t) == Canonical(u) ==> t == u
  }

  lemma SpellingsAgree(cfg: Expansion.SimulatorConfig, devices: seq<Expansion.DeviceSpec>)
    requires Expansion.Expanded(cfg, Ok(devices))
    ensures OneSpelling(Expansion.PointsOf(devices)) <==> OneSpellingEach(cfg)
  {
    hide Expansion.Expanded, Emits, KindOf, Canonical;
    var specs := Expansion.PointsOf(devices);
    forall j | 0 <= j < |specs|
      ensures Emits(cfg, specs[j].objectType)
    {
      ListedIsEmitted(cfg, devices, specs[j]);
    }
    forall t | Emits(cfg, t)
      ensures exists j :: 0 <= j < |specs| && specs[j].objectType == t
    {
      EmittedIsListed(cfg, devices, t);
    }
  }

  lemma BuiltAddressable(devices: seq<Expansion.DeviceSpec>)
    requires Expansion.Numbered(Expansion.PointsOf(devices))
    ensures Addressable(Build(devices)) <==>
      Expansion.IdsDistinct(devices) && OneSpelling(Expansion.PointsOf(devices))
  {
    hide Unique, OneSpelling, Expansion.Numbered, Kept, AllPoints, Canonic;
    var specs := Expansion.PointsOf(devices);
    BuildKeeps(devices);
    if OneSpelling(specs) {
      OneSpellingUnique(specs);
    } else {
      TwoSpellingsClash(specs);
    }
    var built := Build(devices);
    forall i, k | 0 <= i < |built| && 0 <= k < |built[i].points|
      ensures Canonic(built[i].points[k])
    {
      BuiltCanonic(devices, i, k);
    }
    assert forall i :: 0 <= i < |built| ==> built[i].deviceId == devices[i].deviceId;
  }

  // The simulation of an expanded configuration is addressable exactly when no block of device ids
  // reaches into another and no known object type is written in two ways.
  lemma AddressableExactly(cfg: Expansion.SimulatorConfig, devices: seq<Expansion.DeviceSpec>)
    requires Expansion.Fits(cfg) && Expansion.Expanded(cfg, Ok(devices))
    ensures Addressable(Build(devices)) <==> Expansion.BlocksApart(cfg) && OneSpellingEach(cfg)
  {
    assert Expansion.Numbered(Expansion.PointsOf(devices));
    hide *;
    Expansion.IdsDistinctExactly(cfg, devices);
    SpellingsAgree(cfg, devices);
    BuiltAddressable(devices);
  }

  // Of two points of one device under one address, every lookup finds the first.
  lemma {:induction false} FirstOfTwoFound(points: seq<SimulatedPoint>, j: nat, k: nat)
    requires j < k < |points| && SameAddress(points[j], points[k])
    requires Canonical(points[j].objectType) == points[j].objectType
    ensures var r := FindPoint(points, points[k].objectType, points[k].instance);
      r.Some? && r.value in points[..j + 1]
    decreases j
  {
    if points[0].objectType != points[j].objectType || points[0].instance != points[j].instance {
      FirstOfTwoFound(points[1..], j - 1, k - 1);
      assert forall p :: p in points[1..][..j] ==> p in points[..j + 1];
    }
  }

  lemma SpellingsOfAnalogInput()
    ensures Canonical("analog_input") == "analog_input" && Canonical("Analog_Input") == "analog_input"
    ensures KindOf("analog_input") == Some(Analog) && KindOf("Analog_Input") == Some(Analog)
  {
    TrimmedStays("analog_input");
    TrimmedStays("Analog_Input");
    assert Lower("analog_input") == "analog_input";
    assert Lower("Analog_Input") == "analog_input";
  }

  // A template that writes one type in two ways: its second point gets the first one's address, and
  // a read of that address answers with the first point's value.
  lemma SecondSpellingShadowed()
    ensures var specs := [Expansion.PointSpec("a", "analog_input", None, 1, Constant(1.0)),
                          Expansion.PointSpec("b", "Analog_Input", None, 1, Constant(2.0))];
      var devices := Build([Expansion.DeviceSpec(7, "d", 1, specs)]);
      && Expansion.Numbered(specs)
      && |devices[0].points| == 2 && devices[0].points[1].value == Real(2.0)
      && NeutralValue(devices, 7, devices[0].points[1].objectType, devices[0].points[1].instance) == Some(Real(1.0))
  {
    var a := Expansion.PointSpec("a", "analog_input", None, 1, Constant(1.0));
    var b := Expansion.PointSpec("b", "Analog_Input", None, 1, Constant(2.0));
    SpellingsOfAnalogInput();
    hide Canonical, KindOf;
    assert [a, b][..1] == [a] && [a][..0] == [] && [a, b][..0] == [];
    assert Expansion.CountType([a], b.objectType) == 0 by {
      assert a.objectType[0] != b.objectType[0];
    }
    assert Kept([a]) == [PointFromSpec(a).value];
    assert Kept([a, b]) == [PointFromSpec(a).value, PointFromSpec(b).value];
  }
}
