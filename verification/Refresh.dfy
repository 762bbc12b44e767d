// Refreshing the BACnet device table: which devices to ask for, in which ranges, and how the answer
// is reported.
module Refresh {
  import opened Wrappers
  import opened Model

  const CHUNK_SIZE: nat := 25
  const TARGETED_PASSES: nat := 2

  predicate Ascending(s: seq<nat>) {
    forall i, j :: 0 <= i < j < |s| ==> s[i] < s[j]
  }

  // ---- Sorting and removing repeats ----

  predicate NonDecreasing(s: seq<nat>) {
    forall i, j :: 0 <= i < j < |s| ==> s[i] <= s[j]
  }

  function Insert(x: nat, sorted: seq<nat>): seq<nat> {
    if sorted == [] || sorted[|sorted| - 1] <= x then sorted + [x]
    else Insert(x, sorted[..|sorted| - 1]) + [sorted[|sorted| - 1]]
  }

  function Sort(s: seq<nat>): seq<nat> {
    if s == [] then [] else Insert(s[|s| - 1], Sort(s[..|s| - 1]))
  }

  // Of neighbours that are equal the first stays.
  function Dedup(s: seq<nat>): seq<nat> {
    if |s| < 2 then s
    else
      var front := Dedup(s[..|s| - 1]);
      if s[|s| - 2] == s[|s| - 1] then front else front + [s[|s| - 1]]
  }

  function Normalize(devices: seq<nat>): seq<nat> {
    Dedup(Sort(devices))
  }

  lemma {:induction false} InsertSorted(x: nat, sorted: seq<nat>)
    requires NonDecreasing(sorted)
    ensures NonDecreasing(Insert(x, sorted))
    ensures forall y :: y in Insert(x, sorted) <==> y == x || y in sorted
  {
    if sorted != [] && sorted[|sorted| - 1] > x {
      var front, last := sorted[..|sorted| - 1], sorted[|sorted| - 1];
      InsertSorted(x, front);
      assert sorted == front + [last];
      forall i | 0 <= i < |Insert(x, front)|
        ensures Insert(x, front)[i] <= last
      {
        assert Insert(x, front)[i] in Insert(x, front);
      }
    }
  }

  lemma {:induction false} SortSorts(s: seq<nat>)
    ensures NonDecreasing(Sort(s))
    ensures forall y :: y in Sort(s) <==> y in s
  {
    if s != [] {
      SortSorts(s[..|s| - 1]);
      InsertSorted(s[|s| - 1], Sort(s[..|s| - 1]));
      assert s == s[..|s| - 1] + [s[|s| - 1]];
    }
  }

  lemma AppendAscending(a: seq<nat>, last: nat)
    requires Ascending(a) && forall x :: x in a ==> x < last
    ensures Ascending(a + [last])
  {
    forall i | 0 <= i < |a|
      ensures (a + [last])[i] < last
    {
      assert a[i] in a;
    }
  }

  lemma AtMostLast(a: seq<nat>, x: nat)
    requires Ascending(a) && x in a
    ensures x <= a[|a| - 1]
    ensures x in a[..|a| - 1] ==> x < a[|a| - 1]
  {
    var n := |a| - 1;
    if x in a[..n] {
      var i :| 0 <= i < n && a[..n][i] == x;
      assert a[i] == x;
    }
    assert a == a[..n] + [a[n]];
  }

  lemma {:induction false} DedupAscends(s: seq<nat>)
    requires NonDecreasing(s)
    ensures Ascending(Dedup(s)) && (s != [] ==> Dedup(s) != [] && Dedup(s)[|Dedup(s)| - 1] == s[|s| - 1])
    ensures forall y :: y in Dedup(s) <==> y in s
  {
    if |s| >= 2 {
      var n := |s| - 1;
      var front := s[..n];
      DedupAscends(front);
      assert s == front + [s[n]] && front[n - 1] == s[n - 1];
      if s[n - 1] != s[n] {
        forall x | x in Dedup(front)
          ensures x < s[n]
        {
          AtMostLast(Dedup(front), x);
        }
        AppendAscending(Dedup(front), s[n]);
      }
    }
  }

  // The normalised request: the requested devices in ascending order, each once.
  lemma NormalizeIsSet(devices: seq<nat>)
    ensures Ascending(Normalize(devices))
    ensures forall d :: d in Normalize(devices) <==> d in devices
  {
    SortSorts(devices);
    DedupAscends(Sort(devices));
  }

  // ---- Ranges ----

  datatype Range = Range(low: nat, high: nat)

  // Cuts into chunks of 25, the last possibly shorter, and takes each chunk's first and last.
  function ChunkRanges(s: seq<nat>): seq<Range> {
    if s == [] then []
    else if |s| <= CHUNK_SIZE then [Range(s[0], s[|s| - 1])]
    else [Range(s[0], s[CHUNK_SIZE - 1])] + ChunkRanges(s[CHUNK_SIZE..])
  }

  function DeviceRanges(devices: seq<nat>): seq<Range> {
    ChunkRanges(Normalize(devices))
  }

  function CeilDiv(n: nat, d: nat): nat
    requires d > 0
  {
    (n + d - 1) / d
  }

  ghost predicate InRange(d: nat, r: Range) {
    r.low <= d <= r.high
  }

  ghost predicate Disjoint(ranges: seq<Range>) {
    && (forall k :: 0 <= k < |ranges| ==> ranges[k].low <= ranges[k].high)
    && (forall j, k :: 0 <= j < k < |ranges| ==> ranges[j].high < ranges[k].low)
  }

  lemma {:induction false} ChunkCount(s: seq<nat>)
    ensures |ChunkRanges(s)| == CeilDiv(|s|, CHUNK_SIZE)
    decreases |s|
  {
    if |s| > CHUNK_SIZE {
      ChunkCount(s[CHUNK_SIZE..]);
    }
  }

  lemma {:induction false} ChunkEnds(s: seq<nat>, k: nat)
    requires k < |ChunkRanges(s)|
    ensures ChunkRanges(s)[k].low in s && ChunkRanges(s)[k].high in s
    decreases |s|
  {
    if |s| > CHUNK_SIZE && k > 0 {
      ChunkEnds(s[CHUNK_SIZE..], k - 1);
    }
  }

  lemma {:induction false} ChunksDisjoint(s: seq<nat>)
    requires Ascending(s)
    ensures Disjoint(ChunkRanges(s))
    decreases |s|
  {
    if |s| > CHUNK_SIZE {
      var rest := s[CHUNK_SIZE..];
      ChunksDisjoint(rest);
      forall k | 0 <= k < |ChunkRanges(rest)|
        ensures s[CHUNK_SIZE - 1] < ChunkRanges(rest)[k].low
      {
        ChunkEnds(rest, k);
        var j :| 0 <= j < |rest| && rest[j] == ChunkRanges(rest)[k].low;
        assert rest[j] == s[CHUNK_SIZE + j];
      }
    }
  }

  // Device number i of the ascending list lies in range i / 25.
  lemma {:induction false} ChunkHolds(s: seq<nat>, i: nat)
    requires Ascending(s) && i < |s|
    ensures i / CHUNK_SIZE < |ChunkRanges(s)| && InRange(s[i], ChunkRanges(s)[i / CHUNK_SIZE])
    decreases |s|
  {
    if i >= CHUNK_SIZE {
      ChunkHolds(s[CHUNK_SIZE..], i - CHUNK_SIZE);
      assert i / CHUNK_SIZE == (i - CHUNK_SIZE) / CHUNK_SIZE + 1;
    }
  }

  ghost predicate InOnly(d: nat, ranges: seq<Range>, k: nat) {
    k < |ranges| && InRange(d, ranges[k]) && forall j :: 0 <= j < |ranges| && j != k ==> !InRange(d, ranges[j])
  }

  lemma DisjointMeansOne(d: nat, ranges: seq<Range>, k: nat)
    requires Disjoint(ranges) && k < |ranges| && InRange(d, ranges[k])
    ensures InOnly(d, ranges, k)
  {
    forall j | 0 <= j < |ranges| && j != k
      ensures !InRange(d, ranges[j])
    {
      if j < k {
        assert ranges[j].high < ranges[k].low;
      } else {
        assert ranges[k].high < ranges[j].low;
      }
    }
  }

  // The Who-Is ranges for n distinct devices: ceil(n / 25) of them, ascending and disjoint, and every
  // requested device lies in exactly one.
  lemma RangesCover(devices: seq<nat>)
    ensures |DeviceRanges(devices)| == CeilDiv(|Normalize(devices)|, CHUNK_SIZE)
    ensures Disjoint(DeviceRanges(devices))
    ensures forall k :: 0 <= k < |DeviceRanges(devices)| ==>
      DeviceRanges(devices)[k].low in devices && DeviceRanges(devices)[k].high in devices
    ensures forall d :: d in devices ==> exists k: nat :: InOnly(d, DeviceRanges(devices), k)
  {
    var s := Normalize(devices);
    NormalizeIsSet(devices);
    hide Normalize, ChunkRanges;
    ChunkCount(s);
    ChunksDisjoint(s);
    forall k: nat | k < |ChunkRanges(s)|
      ensures ChunkRanges(s)[k].low in devices && ChunkRanges(s)[k].high in devices
    {
      ChunkEnds(s, k);
    }
    forall d | d in devices
      ensures exists k: nat :: InOnly(d, DeviceRanges(devices), k)
    {
      var i :| 0 <= i < |s| && s[i] == d;
      ChunkHolds(s, i);
      var k: nat := i / CHUNK_SIZE;
      DisjointMeansOne(d, ChunkRanges(s), k);
      assert InOnly(d, DeviceRanges(devices), k);
    }
  }

  // ---- The refresh ----

  // What the client's device table knows after the broadcast (entry 0) and after each targeted pass.
  type Tables = nat -> set<nat>

  function Keep(s: seq<nat>, wanted: set<nat>): seq<nat> {
    if s == [] then []
    else Keep(s[..|s| - 1], wanted) + if s[|s| - 1] in wanted then [s[|s| - 1]] else []
  }

  function Drop(s: seq<nat>, unwanted: set<nat>): seq<nat> {
    if s == [] then []
    else Drop(s[..|s| - 1], unwanted) + if s[|s| - 1] in unwanted then [] else [s[|s| - 1]]
  }

  method Partition(requested: seq<nat>, unresolved: seq<nat>) returns (outcome: RefreshOutcome)
    ensures outcome.resolved == Drop(requested, set d | d in unresolved)
    ensures outcome.unresolved == Keep(requested, set d | d in unresolved)
  {
    var missing := set d | d in unresolved;
    var resolved, left := [], [];
    for k := 0 to |requested|
      invariant resolved == Drop(requested[..k], missing) && left == Keep(requested[..k], missing)
    {
      assert requested[..k + 1][..k] == requested[..k];
      if requested[k] in missing {
        left := left + [requested[k]];
      } else {
        resolved := resolved + [requested[k]];
      }
    }
    assert requested[..|requested|] == requested;
    outcome := RefreshOutcome(resolved, left);
  }

  lemma {:induction false} DropMembers(s: seq<nat>, out: set<nat>, d: nat)
    ensures d in Drop(s, out) <==> d in s && d !in out
    ensures d in Keep(s, out) <==> d in s && d in out
  {
    if s != [] {
      DropMembers(s[..|s| - 1], out, d);
      assert s == s[..|s| - 1] + [s[|s| - 1]];
    }
  }

  lemma {:induction false} DropAscends(s: seq<nat>, out: set<nat>)
    requires Ascending(s)
    ensures Ascending(Drop(s, out)) && Ascending(Keep(s, out))
    ensures |Drop(s, out)| + |Keep(s, out)| == |s|
  {
    if s != [] {
      var front, last := s[..|s| - 1], s[|s| - 1];
      DropAscends(front, out);
      assert s == front + [last];
      forall d | d in Drop(front, out)
        ensures d < last
      {
        DropMembers(front, out, d);
        AtMostLast(s, d);
      }
      forall d | d in Keep(front, out)
        ensures d < last
      {
        DropMembers(front, out, d);
        AtMostLast(s, d);
      }
      AppendAscending(Drop(front, out), last);
      AppendAscending(Keep(front, out), last);
    }
  }

  // What a refresh reports, when the client's table is `table` after its last pass: the requested
  // devices, in order and each once, split by whether the table has them.
  ghost predicate Reports(outcome: RefreshOutcome, devices: seq<nat>, table: set<nat>) {
    && (forall d :: d in outcome.resolved <==> d in devices && d in table)
    && (forall d :: d in outcome.unresolved <==> d in devices && d !in table)
    && Ascending(outcome.resolved) && Ascending(outcome.unresolved)
    && |outcome.resolved| + |outcome.unresolved| == |Normalize(devices)|
  }

  lemma PartitionReports(devices: seq<nat>, table: set<nat>, missing: set<nat>)
    requires missing == set d | d in Drop(Normalize(devices), table)
    ensures Reports(RefreshOutcome(Drop(Normalize(devices), missing), Keep(Normalize(devices), missing)), devices, table)
  {
    var requested := Normalize(devices);
    NormalizeIsSet(devices);
    hide Normalize, Drop, Keep;
    DropAscends(requested, missing);
    forall d: nat
      ensures d in Drop(requested, missing) <==> d in devices && d in table
      ensures d in Keep(requested, missing) <==> d in devices && d !in table
    {
      DropMembers(requested, missing, d);
      DropMembers(requested, table, d);
    }
  }

  // The passes made: each asked for the ranges of what was missing before it, and the refresh
  // stopped after two, or once nothing was missing.
  ghost predicate Passes(devices: seq<nat>, tables: Tables, asked: seq<seq<Range>>) {
    && |asked| <= TARGETED_PASSES
    && (forall k :: 0 <= k < |asked| ==>
          Drop(Normalize(devices), tables(k)) != [] && asked[k] == DeviceRanges(Drop(Normalize(devices), tables(k))))
    && (|asked| < TARGETED_PASSES ==> Drop(Normalize(devices), tables(|asked|)) == [])
  }

  method RefreshDeviceTable(devices: seq<nat>, tables: Tables)
    returns (outcome: RefreshOutcome, asked: seq<seq<Range>>)
    ensures Passes(devices, tables, asked)
    ensures Reports(outcome, devices, tables(|asked|))
  {
    hide Normalize, Keep, DeviceRanges;
    var requested := Normalize(devices);
    asked := [];
    if requested == [] {
      PartitionReports(devices, tables(0), {});
      assert Drop(requested, tables(0)) == [] && Drop(requested, {}) == [];
      NothingKept({});
      return RefreshOutcome([], []), [];
    }
    var unresolved := Unresolved(requested, tables(0));
    while |asked| < TARGETED_PASSES && unresolved != []
      invariant |asked| <= TARGETED_PASSES
      invariant unresolved == Drop(requested, tables(|asked|))
      invariant forall k :: 0 <= k < |asked| ==>
        Drop(requested, tables(k)) != [] && asked[k] == DeviceRanges(Drop(requested, tables(k)))
      decreases TARGETED_PASSES - |asked|
    {
      asked := asked + [DeviceRanges(unresolved)];
      unresolved := Unresolved(requested, tables(|asked|));
    }
    outcome := Partition(requested, unresolved);
    PartitionReports(devices, tables(|asked|), set d | d in unresolved);
  }

  lemma NothingKept(wanted: set<nat>)
    ensures Keep([], wanted) == []
  {
  }

  method Unresolved(requested: seq<nat>, table: set<nat>) returns (unresolved: seq<nat>)
    ensures unresolved == Drop(requested, table)
  {
    unresolved := [];
    for k := 0 to |requested|
      invariant unresolved == Drop(requested[..k], table)
    {
      assert requested[..k + 1][..k] == requested[..k];
      if requested[k] !in table {
        unresolved := unresolved + [requested[k]];
      }
    }
    assert requested[..|requested|] == requested;
  }

  // ---- The devices of the configured points ----

  function DeviceNumbers(points: seq<PointConfig>): seq<nat> {
    if points == [] then []
    else
      var p := points[|points| - 1];
      DeviceNumbers(points[..|points| - 1]) +
      if p.enabled && DeviceInstance(p).Some? then [DeviceInstance(p).value] else []
  }

  // The devices the worker keeps refreshing.
  function UniqueDeviceInstances(points: seq<PointConfig>): seq<nat> {
    Normalize(DeviceNumbers(points))
  }

  ghost predicate Uses(points: seq<PointConfig>, device: nat) {
    exists p :: p in points && p.enabled && DeviceInstance(p) == Some(device)
  }

  lemma {:induction false} DeviceNumbersAre(points: seq<PointConfig>, device: nat)
    ensures device in DeviceNumbers(points) <==> Uses(points, device)
  {
    if points != [] {
      var front, p := points[..|points| - 1], points[|points| - 1];
      DeviceNumbersAre(front, device);
      hide DeviceInstance;
      assert points == front + [p];
      assert Uses(points, device) <==> Uses(front, device) || (p.enabled && DeviceInstance(p) == Some(device));
    }
  }

  // A refresh of the worker's devices reports exactly the devices that enabled points use, each as
  // resolved or as unresolved, by what the client's table holds in the end.
  lemma EveryDeviceReported(points: seq<PointConfig>, outcome: RefreshOutcome, table: set<nat>)
    requires Reports(outcome, UniqueDeviceInstances(points), table)
    ensures forall d :: d in outcome.resolved <==> Uses(points, d) && d in table
    ensures forall d :: d in outcome.unresolved <==> Uses(points, d) && d !in table
  {
    NormalizeIsSet(DeviceNumbers(points));
    hide Normalize, DeviceNumbers, Uses, Ascending;
    forall d: nat
      ensures d in UniqueDeviceInstances(points) <==> Uses(points, d)
    {
      DeviceNumbersAre(points, d);
    }
  }
}
