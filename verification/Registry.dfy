// The BACnet view of the simulation: a registry of devices with sorted object lists, and property
// reads resolved against it.
module Registry {
  import opened Wrappers
  import opened Profiles
  import opened Simulation

  datatype ObjectType =
    | AnalogInput | AnalogOutput | AnalogValue
    | BinaryInput | BinaryOutput | BinaryValue
    | MultiStateInput | MultiStateOutput | MultiStateValue
    | DeviceObject

  // The object type enumeration of ANSI/ASHRAE 135.
  function TypeNumber(t: ObjectType): nat {
    match t
    case AnalogInput => 0
    case AnalogOutput => 1
    case AnalogValue => 2
    case BinaryInput => 3
    case BinaryOutput => 4
    case BinaryValue => 5
    case DeviceObject => 8
    case MultiStateInput => 13
    case MultiStateOutput => 14
    case MultiStateValue => 19
  }

  function TypeFromText(text: string): Option<ObjectType> {
    var t := Canonical(text);
    if t == "analog_input" then Some(AnalogInput)
    else if t == "analog_output" then Some(AnalogOutput)
    else if t == "analog_value" then Some(AnalogValue)
    else if t == "binary_input" then Some(BinaryInput)
    else if t == "binary_output" then Some(BinaryOutput)
    else if t == "binary_value" then Some(BinaryValue)
    else if t == "multi_state_input" then Some(MultiStateInput)
    else if t == "multi_state_output" then Some(MultiStateOutput)
    else if t == "multi_state_value" then Some(MultiStateValue)
    else None
  }

  function TextOf(t: ObjectType): string {
    match t
    case AnalogInput => "analog_input"
    case AnalogOutput => "analog_output"
    case AnalogValue => "analog_value"
    case BinaryInput => "binary_input"
    case BinaryOutput => "binary_output"
    case BinaryValue => "binary_value"
    case MultiStateInput => "multi_state_input"
    case MultiStateOutput => "multi_state_output"
    case MultiStateValue => "multi_state_value"
    case DeviceObject => "device"
  }

  function TypeOf(p: SimulatedPoint): ObjectType {
    var t := TypeFromText(p.objectType);
    if t.Some? then t.value else AnalogValue
  }

  datatype PointEntry = PointEntry(objectType: ObjectType, typeText: string, instance: nat, name: string, units: Option<string>)
  datatype DeviceEntry = DeviceEntry(deviceId: nat, points: seq<PointEntry>)

  function EntryOf(p: SimulatedPoint): PointEntry {
    PointEntry(TypeOf(p), p.objectType, p.instance, p.name, p.units)
  }

  // The order of the object list: by type number, then instance.
  predicate AtMost(a: PointEntry, b: PointEntry) {
    TypeNumber(a.objectType) < TypeNumber(b.objectType) ||
    (TypeNumber(a.objectType) == TypeNumber(b.objectType) && a.instance <= b.instance)
  }

  function Insert(e: PointEntry, sorted: seq<PointEntry>): seq<PointEntry> {
    if sorted == [] then [e]
    else if AtMost(sorted[|sorted| - 1], e) then sorted + [e]
    else Insert(e, sorted[..|sorted| - 1]) + [sorted[|sorted| - 1]]
  }

  // The stable sort of the object list.
  function SortEntries(entries: seq<PointEntry>): seq<PointEntry> {
    if entries == [] then [] else Insert(entries[|entries| - 1], SortEntries(entries[..|entries| - 1]))
  }

  function EntriesOf(points: seq<SimulatedPoint>): seq<PointEntry> {
    seq(|points|, i requires 0 <= i < |points| => EntryOf(points[i]))
  }

  function BuildRegistry(devices: seq<SimulatedDevice>): seq<DeviceEntry> {
    seq(|devices|, i requires 0 <= i < |devices| =>
      DeviceEntry(devices[i].deviceId, SortEntries(EntriesOf(devices[i].points))))
  }

  // ---- Property reads ----

  datatype Property = ObjectList | PresentValue | ObjectIdentifier | ObjectTypeNumber | Description | OtherProperty

  datatype PropertyRead = PropertyRead(objectType: ObjectType, instance: nat, property: Property, arrayIndex: Option<nat>)

  datatype PropertyValue =
    | RealValue(r: real) | BooleanValue(b: bool) | UnsignedValue(u: nat) | Enumerated(n: nat)
    | ObjectIdValue(objectType: ObjectType, instance: nat) | TextValue(text: string)

  function FindEntry(points: seq<PointEntry>, t: ObjectType, instance: nat): Option<PointEntry> {
    if points == [] then None
    else if points[0].objectType == t && points[0].instance == instance then Some(points[0])
    else FindEntry(points[1..], t, instance)
  }

  // Binary objects present their state as an enumeration, not as a boolean.
  function Presented(t: ObjectType, v: PointValue): PropertyValue {
    match v
    case Boolean(b) => if t in {BinaryInput, BinaryOutput, BinaryValue} then Enumerated(if b then 1 else 0) else BooleanValue(b)
    case Real(r) => RealValue(r)
    case Unsigned(u) => UnsignedValue(u)
  }

  function ReadDevice(d: DeviceEntry, property: Property, index: Option<nat>): Option<PropertyValue> {
    match property
    case ObjectList =>
      if index.None? then None
      else if index.value == 0 then Some(UnsignedValue(|d.points|))
      else if index.value <= |d.points| then
        Some(ObjectIdValue(d.points[index.value - 1].objectType, d.points[index.value - 1].instance))
      else None
    case ObjectIdentifier => Some(ObjectIdValue(DeviceObject, d.deviceId))
    case _ => None
  }

  function ReadPoint(devices: seq<SimulatedDevice>, deviceId: nat, p: PointEntry, property: Property): Option<PropertyValue> {
    match property
    case Description => Some(TextValue(p.name))
    case PresentValue =>
      var v := NeutralValue(devices, deviceId, p.typeText, p.instance);
      if v.None? then None else Some(Presented(p.objectType, v.value))
    case ObjectIdentifier => Some(ObjectIdValue(p.objectType, p.instance))
    case ObjectTypeNumber => Some(Enumerated(TypeNumber(p.objectType)))
    case _ => None
  }

  // An index of the devices by id; of devices sharing an id it keeps the last.
  function DeviceById(registry: seq<DeviceEntry>, deviceId: nat): Option<DeviceEntry> {
    if registry == [] then None
    else if registry[|registry| - 1].deviceId == deviceId then Some(registry[|registry| - 1])
    else DeviceById(registry[..|registry| - 1], deviceId)
  }

  function ResolvePoint(read: PropertyRead, registry: seq<DeviceEntry>, devices: seq<SimulatedDevice>): Option<PropertyValue> {
    if registry == [] then None
    else
      var p := FindEntry(registry[0].points, read.objectType, read.instance);
      if p.Some? then ReadPoint(devices, registry[0].deviceId, p.value, read.property)
      else ResolvePoint(read, registry[1..], devices)
  }

  function Resolve(read: PropertyRead, registry: seq<DeviceEntry>, devices: seq<SimulatedDevice>): Option<PropertyValue> {
    if read.objectType == DeviceObject then
      var d := DeviceById(registry, read.instance);
      if d.None? then None else ReadDevice(d.value, read.property, read.arrayIndex)
    else
      ResolvePoint(read, registry, devices)
  }

  // ---- Sorting ----

  predicate Sorted(entries: seq<PointEntry>) {
    forall i, j :: 0 <= i < j < |entries| ==> AtMost(entries[i], entries[j])
  }

  lemma AppendSorted(a: seq<PointEntry>, last: PointEntry)
    requires Sorted(a) && forall x :: x in a ==> AtMost(x, last)
    ensures Sorted(a + [last])
  {
  }

  lemma SortedAtMostLast(sorted: seq<PointEntry>, e: PointEntry)
    requires Sorted(sorted) && sorted != [] && AtMost(sorted[|sorted| - 1], e)
    ensures forall x :: x in sorted ==> AtMost(x, e)
  {
  }

  lemma {:induction false} InsertSorts(e: PointEntry, sorted: seq<PointEntry>)
    requires Sorted(sorted)
    ensures Sorted(Insert(e, sorted)) && multiset(Insert(e, sorted)) == multiset(sorted) + multiset{e}
  {
    if sorted == [] {
    } else if AtMost(sorted[|sorted| - 1], e) {
      SortedAtMostLast(sorted, e);
      AppendSorted(sorted, e);
    } else {
      var front, last := sorted[..|sorted| - 1], sorted[|sorted| - 1];
      var inserted := Insert(e, front);
      InsertSorts(e, front);
      hide Insert;
      assert sorted == front + [last];
      assert multiset(sorted) == multiset(front) + multiset{last};
      assert front == [] || AtMost(front[|front| - 1], last);
      forall x | x in inserted
        ensures AtMost(x, last)
      {
        assert x in multiset(inserted);
      }
      AppendSorted(inserted, last);
    }
  }

  lemma SortStep(front: seq<PointEntry>, last: PointEntry)
    requires Sorted(SortEntries(front)) && multiset(SortEntries(front)) == multiset(front)
    ensures Sorted(SortEntries(front + [last])) && multiset(SortEntries(front + [last])) == multiset(front + [last])
  {
    assert (front + [last])[..|front|] == front;
    assert SortEntries(front + [last]) == Insert(last, SortEntries(front));
    hide *;
    InsertSorts(last, SortEntries(front));
  }

  lemma {:induction false} SortSorts(entries: seq<PointEntry>)
    ensures Sorted(SortEntries(entries)) && multiset(SortEntries(entries)) == multiset(entries)
  {
    if entries == [] {
      assert SortEntries(entries) == [];
    } else {
      hide *;
      var front, last := entries[..|entries| - 1], entries[|entries| - 1];
      assert entries == front + [last];
      SortSorts(front);
      SortStep(front, last);
    }
  }
}
