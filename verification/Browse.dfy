// The OPC UA address-space browse: a breadth-first walk with a visited set, a FIFO frontier,
// a depth limit and a cap on visited nodes.
module Browse {
  import opened Wrappers
  import opened Picking

  datatype NodeId = NodeId(namespace: nat, identifier: string)

  datatype NodeClass = Object | Variable | OtherClass

  // One reference returned by the server. `name` is the name chosen for it (display name,
  // else browse name, else the node id).
  datatype Reference = Reference(isForward: bool, nodeClass: NodeClass, target: NodeId, name: string)

  // What browsing each node answers: its references, or the error that aborts the walk.
  type Graph = NodeId -> Result<seq<Reference>, string>

  // A frontier entry: the node, the names on the path that first led to it, and its depth.
  datatype Entry = Entry(node: NodeId, path: seq<string>, depth: nat)

  datatype Point = Point(node: NodeId, tag: seq<string>)

  datatype BrowseOutcome = BrowseOutcome(points: seq<Point>, truncated: bool)

  const MAX_BROWSE_DEPTH: nat := 12
  const MAX_BROWSE_NODES: nat := 20_000

  // ---- The address space as a graph ----

  function Refs(g: Graph, n: NodeId): seq<Reference> {
    if g(n).Ok? then g(n).value else []
  }

  // References the walk descends: forward, to an Object outside the core namespace.
  predicate Descends(r: Reference) {
    r.isForward && r.nodeClass == Object && r.target.namespace != 0
  }

  ghost predicate Linked(g: Graph, a: NodeId, b: NodeId) {
    exists r :: r in Refs(g, a) && Descends(r) && r.target == b
  }

  ghost function Successors(g: Graph, s: set<NodeId>): set<NodeId> {
    set a, r | a in s && r in Refs(g, a) && Descends(r) :: r.target
  }

  // The nodes within k links of the root.
  ghost function Ball(g: Graph, root: NodeId, k: nat): set<NodeId> {
    if k == 0 then {root}
    else
      var inner := Ball(g, root, k - 1);
      inner + Successors(g, inner)
  }

  // Being k links away and not fewer.
  ghost predicate AtDistance(g: Graph, root: NodeId, n: NodeId, k: nat) {
    n in Ball(g, root, k) && (k > 0 ==> n !in Ball(g, root, k - 1))
  }

  ghost predicate IsWalk(g: Graph, w: seq<NodeId>) {
    w != [] && (|w| > 1 ==> IsWalk(g, w[..|w| - 1]) && Linked(g, w[|w| - 2], w[|w| - 1]))
  }

  ghost predicate WalkTo(g: Graph, root: NodeId, n: NodeId, w: seq<NodeId>) {
    w != [] && IsWalk(g, w) && w[0] == root && w[|w| - 1] == n
  }

  lemma {:induction false} BallMonotone(g: Graph, root: NodeId, j: nat, k: nat)
    requires j <= k
    ensures Ball(g, root, j) <= Ball(g, root, k)
  {
    hide Successors;
    if j < k {
      BallMonotone(g, root, j, k - 1);
    }
  }

  lemma BallStep(g: Graph, root: NodeId, a: NodeId, b: NodeId, k: nat)
    requires a in Ball(g, root, k) && Linked(g, a, b)
    ensures b in Ball(g, root, k + 1)
  {
    var r :| r in Refs(g, a) && Descends(r) && r.target == b;
    assert b in Successors(g, Ball(g, root, k));
  }

  // A ball is exactly what walks of bounded length reach.
  lemma {:induction false} BallHoldsWalkEnds(g: Graph, root: NodeId, n: NodeId, w: seq<NodeId>)
    requires WalkTo(g, root, n, w)
    ensures n in Ball(g, root, |w| - 1)
    decreases |w|
  {
    if |w| > 1 {
      var v := w[..|w| - 1];
      BallHoldsWalkEnds(g, root, v[|v| - 1], v);
      assert Linked(g, w[|w| - 2], w[|w| - 1]);
      BallStep(g, root, v[|v| - 1], n, |v| - 1);
    }
  }

  lemma SuccessorOf(g: Graph, s: set<NodeId>, n: NodeId) returns (a: NodeId)
    requires n in Successors(g, s)
    ensures a in s && Linked(g, a, n)
  {
    var b, r :| b in s && r in Refs(g, b) && Descends(r) && r.target == n;
    a := b;
  }

  lemma WalkExtends(g: Graph, root: NodeId, v: seq<NodeId>, a: NodeId, n: NodeId)
    requires WalkTo(g, root, a, v) && Linked(g, a, n)
    ensures WalkTo(g, root, n, v + [n])
  {
    assert (v + [n])[..|v|] == v;
  }

  lemma {:induction false} BallHasWalk(g: Graph, root: NodeId, n: NodeId, k: nat)
    returns (w: seq<NodeId>)
    requires n in Ball(g, root, k)
    ensures WalkTo(g, root, n, w) && |w| <= k + 1
    decreases k
  {
    hide Successors, Linked;
    if k == 0 {
      w := [root];
    } else if n in Ball(g, root, k - 1) {
      w := BallHasWalk(g, root, n, k - 1);
    } else {
      var a := SuccessorOf(g, Ball(g, root, k - 1), n);
      var v := BallHasWalk(g, root, a, k - 1);
      w := v + [n];
      WalkExtends(g, root, v, a, n);
    }
  }

  lemma NoShorterWalk(g: Graph, root: NodeId, n: NodeId, k: nat, w: seq<NodeId>)
    requires AtDistance(g, root, n, k) && WalkTo(g, root, n, w)
    ensures |w| >= k + 1
  {
    hide Ball, IsWalk;
    BallHoldsWalkEnds(g, root, n, w);
    if |w| <= k {
      BallMonotone(g, root, |w| - 1, k - 1);
      assert false;
    }
  }

  // The depth recorded by the walk is the length of a shortest walk from the root.
  lemma DistanceIsShortestWalk(g: Graph, root: NodeId, n: NodeId, k: nat)
    ensures AtDistance(g, root, n, k) <==>
            (exists w :: WalkTo(g, root, n, w) && |w| == k + 1) &&
            (forall w :: WalkTo(g, root, n, w) ==> |w| >= k + 1)
  {
    hide Ball, IsWalk;
    if n in Ball(g, root, k) {
      var w := BallHasWalk(g, root, n, k);
      if AtDistance(g, root, n, k) {
        forall v | WalkTo(g, root, n, v)
          ensures |v| >= k + 1
        {
          NoShorterWalk(g, root, n, k, v);
        }
        assert |w| == k + 1;
      } else {
        var v := BallHasWalk(g, root, n, k - 1);
        assert |v| < k + 1;
      }
    } else {
      forall w | WalkTo(g, root, n, w)
        ensures |w| != k + 1
      {
        BallHoldsWalkEnds(g, root, n, w);
      }
    }
  }

  // ---- Collected points ----

  // One point per forward Variable reference, tagged with the path plus the reference name.
  function VariablePoints(refs: seq<Reference>, path: seq<string>): seq<Point> {
    if refs == [] then []
    else
      var r := refs[|refs| - 1];
      VariablePoints(refs[..|refs| - 1], path)
      + (if r.isForward && r.nodeClass == Variable then [Point(r.target, path + [r.name])] else [])
  }

  ghost function PointsOf(g: Graph, entries: seq<Entry>): seq<Point> {
    if entries == [] then []
    else
      var e := entries[|entries| - 1];
      PointsOf(g, entries[..|entries| - 1]) + VariablePoints(Refs(g, e.node), e.path)
  }

  predicate IsVariable(r: Reference) {
    r.isForward && r.nodeClass == Variable
  }

  function PointFor(path: seq<string>): Reference -> Point {
    (r: Reference) => Point(r.target, path + [r.name])
  }

  // One point for each forward Variable reference, in their order.
  lemma {:induction false} VariablePointsPick(refs: seq<Reference>, path: seq<string>)
    ensures Picks(refs, IsVariable, PointFor(path), VariablePoints(refs, path))
  {
    if refs == [] {
      PicksNone(IsVariable, PointFor(path));
    } else {
      var front, last := refs[..|refs| - 1], refs[|refs| - 1];
      VariablePointsPick(front, path);
      PicksOneMore(front, last, IsVariable, PointFor(path), VariablePoints(front, path));
      assert refs == front + [last];
      hide Picks;
    }
  }

  // Reference k of entry j is a forward Variable reference.
  ghost predicate VariableAt(g: Graph, entries: seq<Entry>, j: nat, k: nat) {
    j < |entries| && k < |Refs(g, entries[j].node)| && IsVariable(Refs(g, entries[j].node)[k])
  }

  // The point of that reference.
  ghost function PointAt(g: Graph, entries: seq<Entry>, j: nat, k: nat): Point
    requires VariableAt(g, entries, j, k)
  {
    var r := Refs(g, entries[j].node)[k];
    Point(r.target, entries[j].path + [r.name])
  }

  ghost function VariablePlaces(g: Graph, entries: seq<Entry>): (nat, nat) -> bool {
    (j: nat, k: nat) => VariableAt(g, entries, j, k)
  }

  ghost predicate PointsAt(g: Graph, entries: seq<Entry>, m: nat, at: seq<(nat, nat)>, points: seq<Point>) {
    m <= |entries| && Places(at, m, VariablePlaces(g, entries)) && AllPlaced(g, entries, at, points)
  }

  // Exactly one point for each pair of an entry and a forward Variable reference of it, entry by
  // entry, each entry's in the order of its references.
  ghost predicate PointPerReference(g: Graph, entries: seq<Entry>, points: seq<Point>) {
    exists at :: PointsAt(g, entries, |entries|, at, points)
  }

  // The points of entry m alone.
  lemma VariableRow(g: Graph, entries: seq<Entry>, m: nat, ks: seq<nat>)
    requires m < |entries|
    requires var e := entries[m];
      PicksAt(Refs(g, e.node), IsVariable, PointFor(e.path), ks, VariablePoints(Refs(g, e.node), e.path))
    ensures Ascending(ks) && forall k: nat :: k in ks <==> VariablePlaces(g, entries)(m, k)
    ensures var row := VariablePoints(Refs(g, entries[m].node), entries[m].path);
      |row| == |ks| &&
      forall a :: 0 <= a < |ks| ==> VariableAt(g, entries, m, ks[a]) && row[a] == PointAt(g, entries, m, ks[a])
  {
    hide VariablePoints, Refs;
    forall a | 0 <= a < |ks|
      ensures VariableAt(g, entries, m, ks[a])
    {
      assert ks[a] in ks;
    }
  }

  ghost predicate AllPlaced(g: Graph, entries: seq<Entry>, at: seq<(nat, nat)>, points: seq<Point>) {
    && |points| == |at|
    && forall a :: 0 <= a < |at| ==>
         VariableAt(g, entries, at[a].0, at[a].1) && points[a] == PointAt(g, entries, at[a].0, at[a].1)
  }

  lemma PlacedJoins(g: Graph, entries: seq<Entry>, at: seq<(nat, nat)>, points: seq<Point>,
                    row: seq<(nat, nat)>, more: seq<Point>)
    requires AllPlaced(g, entries, at, points) && AllPlaced(g, entries, row, more)
    ensures AllPlaced(g, entries, at + row, points + more)
  {
    hide VariableAt, PointAt;
    var all, list := at + row, points + more;
    forall a | 0 <= a < |all|
      ensures VariableAt(g, entries, all[a].0, all[a].1) && list[a] == PointAt(g, entries, all[a].0, all[a].1)
    {
      if a < |at| {
        assert all[a] == at[a] && list[a] == points[a];
      } else {
        assert all[a] == row[a - |at|] && list[a] == more[a - |at|];
      }
    }
  }

  lemma PointsRow(g: Graph, entries: seq<Entry>, m: nat, at: seq<(nat, nat)>, points: seq<Point>, ks: seq<nat>)
    requires m < |entries| && PointsAt(g, entries, m, at, points)
    requires var e := entries[m];
      PicksAt(Refs(g, e.node), IsVariable, PointFor(e.path), ks, VariablePoints(Refs(g, e.node), e.path))
    ensures PointsAt(g, entries, m + 1, at + Row(m, ks),
                     points + VariablePoints(Refs(g, entries[m].node), entries[m].path))
  {
    hide Places, VariableAt, VariablePoints, Refs, PointAt, PicksAt, VariablePlaces;
    VariableRow(g, entries, m, ks);
    PlacesRow(at, m, VariablePlaces(g, entries), ks);
    PlacedJoins(g, entries, at, points, Row(m, ks), VariablePoints(Refs(g, entries[m].node), entries[m].path));
  }

  lemma {:induction false} PointsOfPlaced(g: Graph, entries: seq<Entry>, m: nat) returns (at: seq<(nat, nat)>)
    requires m <= |entries|
    ensures PointsAt(g, entries, m, at, PointsOf(g, entries[..m]))
  {
    if m == 0 {
      at := [];
      PlacesNone(VariablePlaces(g, entries));
    } else {
      var before := PointsOfPlaced(g, entries, m - 1);
      var e := entries[m - 1];
      VariablePointsPick(Refs(g, e.node), e.path);
      var ks :| PicksAt(Refs(g, e.node), IsVariable, PointFor(e.path), ks, VariablePoints(Refs(g, e.node), e.path));
      at := before + Row(m - 1, ks);
      assert entries[..m][..m - 1] == entries[..m - 1];
      assert PointsOf(g, entries[..m]) == PointsOf(g, entries[..m - 1]) + VariablePoints(Refs(g, e.node), e.path);
      hide *;
      PointsRow(g, entries, m - 1, before, PointsOf(g, entries[..m - 1]), ks);
    }
  }

  lemma PointsOfPerReference(g: Graph, entries: seq<Entry>)
    ensures PointPerReference(g, entries, PointsOf(g, entries))
  {
    var at := PointsOfPlaced(g, entries, |entries|);
    assert entries[..|entries|] == entries;
    hide PointsAt, PointsOf;
  }

  lemma {:induction false} VariablePointsAre(refs: seq<Reference>, path: seq<string>, p: Point)
    ensures p in VariablePoints(refs, path) <==>
      exists r :: r in refs && r.isForward && r.nodeClass == Variable && p == Point(r.target, path + [r.name])
  {
    if refs != [] {
      var front, last := refs[..|refs| - 1], refs[|refs| - 1];
      VariablePointsAre(front, path, p);
      assert forall r :: r in refs <==> r in front || r == last;
    }
  }

  ghost predicate Refers(g: Graph, n: NodeId, v: NodeId) {
    exists r :: r in Refs(g, n) && r.isForward && r.nodeClass == Variable && r.target == v
  }

  ghost predicate HasPoint(points: seq<Point>, v: NodeId) {
    exists k :: 0 <= k < |points| && points[k].node == v
  }

  lemma EntryPoints(g: Graph, e: Entry, v: NodeId)
    ensures HasPoint(VariablePoints(Refs(g, e.node), e.path), v) <==> Refers(g, e.node, v)
  {
    var points := VariablePoints(Refs(g, e.node), e.path);
    if Refers(g, e.node, v) {
      var r :| r in Refs(g, e.node) && r.isForward && r.nodeClass == Variable && r.target == v;
      VariablePointsAre(Refs(g, e.node), e.path, Point(v, e.path + [r.name]));
      assert Point(v, e.path + [r.name]) in points;
    }
    if HasPoint(points, v) {
      var k :| 0 <= k < |points| && points[k].node == v;
      VariablePointsAre(Refs(g, e.node), e.path, points[k]);
    }
  }

  lemma HasPointSplits(a: seq<Point>, b: seq<Point>, v: NodeId)
    ensures HasPoint(a + b, v) <==> HasPoint(a, v) || HasPoint(b, v)
  {
    var all := a + b;
    assert forall k :: 0 <= k < |a| ==> all[k] == a[k];
    assert forall k :: 0 <= k < |b| ==> all[|a| + k] == b[k];
  }

  lemma {:induction false} PointsOfEntries(g: Graph, entries: seq<Entry>, v: NodeId)
    ensures HasPoint(PointsOf(g, entries), v) <==>
      exists j :: 0 <= j < |entries| && Refers(g, entries[j].node, v)
  {
    if entries != [] {
      var front, last := entries[..|entries| - 1], entries[|entries| - 1];
      PointsOfEntries(g, front, v);
      EntryPoints(g, last, v);
      HasPointSplits(PointsOf(g, front), VariablePoints(Refs(g, last.node), last.path), v);
      hide Refers, HasPoint, VariablePoints;
    }
  }

  // ---- The discovery order ----

  // Entry j was discovered through an earlier entry: one link deeper, path extended by the name.
  ghost predicate HasParent(g: Graph, order: seq<Entry>, j: nat)
    requires j < |order|
  {
    exists p: nat, r :: p < j && r in Refs(g, order[p].node) && Descends(r) &&
      r.target == order[j].node && order[j].depth == order[p].depth + 1 &&
      order[j].path == order[p].path + [r.name]
  }

  ghost predicate Listed(order: seq<Entry>, n: NodeId, maxDepth: nat) {
    exists m :: 0 <= m < |order| && order[m].node == n && order[m].depth <= maxDepth
  }

  // All links in `refs`, a part of what node entry `e` refers to, have been recorded in time.
  ghost predicate Closed(order: seq<Entry>, refs: seq<Reference>, e: Entry) {
    e.depth < MAX_BROWSE_DEPTH ==>
      forall r :: r in refs && Descends(r) ==> Listed(order, r.target, e.depth + 1)
  }

  ghost function NodesOf(order: seq<Entry>): set<NodeId> {
    set j | 0 <= j < |order| :: order[j].node
  }

  ghost predicate Distinct(order: seq<Entry>) {
    forall j, k :: 0 <= j < k < |order| ==> order[j].node != order[k].node
  }

  ghost predicate DepthsAscend(order: seq<Entry>) {
    forall j, k :: 0 <= j < k < |order| ==> order[j].depth <= order[k].depth
  }

  // The state of the walk after expanding `order[..i]`; the rest of `order` is the frontier.
  ghost predicate Walked(g: Graph, root: NodeId, order: seq<Entry>, i: nat) {
    && i <= |order| && 0 < |order|
    && order[0] == Entry(root, [], 0)
    && Distinct(order)
    && DepthsAscend(order)
    && (forall j :: 0 <= j < |order| ==>
          order[j].depth <= MAX_BROWSE_DEPTH && AtDistance(g, root, order[j].node, order[j].depth))
    && (forall j :: 0 < j < |order| ==> HasParent(g, order, j))
    && (forall j :: 0 <= j < i ==> Closed(order, Refs(g, order[j].node), order[j]))
  }

  // Nodes as deep as the next frontier entry are all listed: breadth first never runs ahead.
  lemma {:induction false} BallListed(g: Graph, root: NodeId, order: seq<Entry>, i: nat, k: nat, n: NodeId)
    requires Walked(g, root, order, i)
    requires k <= MAX_BROWSE_DEPTH
    requires forall j :: i <= j < |order| ==> k <= order[j].depth
    requires n in Ball(g, root, k)
    ensures Listed(order, n, k)
  {
    hide Successors;
    if k == 0 {
      assert order[0].node == n;
    } else if n in Ball(g, root, k - 1) {
      BallListed(g, root, order, i, k - 1, n);
    } else {
      var a := SuccessorOf(g, Ball(g, root, k - 1), n);
      BallListed(g, root, order, i, k - 1, a);
      var m :| 0 <= m < |order| && order[m].node == a && order[m].depth <= k - 1;
      assert m < i;
      assert Closed(order, Refs(g, order[m].node), order[m]);
    }
  }

  // A finished walk lists exactly the nodes within the depth limit.
  lemma WalkedIsBall(g: Graph, root: NodeId, order: seq<Entry>)
    requires Walked(g, root, order, |order|)
    ensures NodesOf(order) == Ball(g, root, MAX_BROWSE_DEPTH)
  {
    forall n | n in Ball(g, root, MAX_BROWSE_DEPTH)
      ensures n in NodesOf(order)
    {
      BallListed(g, root, order, |order|, MAX_BROWSE_DEPTH, n);
    }
    NodesInBall(g, root, order, |order|);
  }

  lemma NodesInBall(g: Graph, root: NodeId, order: seq<Entry>, i: nat)
    requires Walked(g, root, order, i)
    ensures NodesOf(order) <= Ball(g, root, MAX_BROWSE_DEPTH)
  {
    forall j | 0 <= j < |order|
      ensures order[j].node in Ball(g, root, MAX_BROWSE_DEPTH)
    {
      BallMonotone(g, root, order[j].depth, MAX_BROWSE_DEPTH);
    }
  }

  lemma {:induction false} DistinctCount(order: seq<Entry>)
    requires Distinct(order)
    ensures |NodesOf(order)| == |order|
  {
    if order != [] {
      var rest := order[..|order| - 1];
      DistinctCount(rest);
      assert NodesOf(order) == NodesOf(rest) + {order[|order| - 1].node};
    }
  }

  lemma ListedGrows(order: seq<Entry>, child: Entry, n: NodeId, d: nat)
    requires Listed(order, n, d)
    ensures Listed(order + [child], n, d)
  {
    var m :| 0 <= m < |order| && order[m].node == n && order[m].depth <= d;
    assert (order + [child])[m].node == n;
  }

  lemma ClosedGrows(order: seq<Entry>, child: Entry, refs: seq<Reference>, e: Entry)
    requires Closed(order, refs, e)
    ensures Closed(order + [child], refs, e)
  {
    if e.depth < MAX_BROWSE_DEPTH {
      forall r | r in refs && Descends(r)
        ensures Listed(order + [child], r.target, e.depth + 1)
      {
        ListedGrows(order, child, r.target, e.depth + 1);
      }
    }
  }

  lemma ParentGrows(g: Graph, order: seq<Entry>, child: Entry, j: nat)
    requires j < |order| && HasParent(g, order, j)
    ensures HasParent(g, order + [child], j)
  {
    var p: nat, q :| p < j && q in Refs(g, order[p].node) && Descends(q) &&
      q.target == order[j].node && order[j].depth == order[p].depth + 1 &&
      order[j].path == order[p].path + [q.name];
    assert (order + [child])[p] == order[p];
  }

  lemma ChildHasParent(g: Graph, order: seq<Entry>, i: nat, r: Reference, child: Entry)
    requires i < |order| && r in Refs(g, order[i].node) && Descends(r)
    requires child == Entry(r.target, order[i].path + [r.name], order[i].depth + 1)
    ensures HasParent(g, order + [child], |order|)
  {
    assert (order + [child])[i] == order[i];
  }

  // An unlisted child of the entry being expanded lies exactly one link further out.
  lemma ChildDistance(g: Graph, root: NodeId, order: seq<Entry>, i: nat, r: Reference)
    requires Walked(g, root, order, i) && i < |order|
    requires r in Refs(g, order[i].node) && Descends(r)
    requires r.target !in NodesOf(order)
    ensures AtDistance(g, root, r.target, order[i].depth + 1)
  {
    var d := order[i].depth;
    assert AtDistance(g, root, order[i].node, d);
    assert Linked(g, order[i].node, r.target);
    BallStep(g, root, order[i].node, r.target, d);
    if r.target in Ball(g, root, d) {
      BallListed(g, root, order, i, d, r.target);
      assert false;
    }
  }

  // Recording a new child of the entry being expanded keeps the walk's state.
  lemma Push(g: Graph, root: NodeId, order: seq<Entry>, i: nat, r: Reference, child: Entry)
    requires Walked(g, root, order, i) && i < |order|
    requires r in Refs(g, order[i].node) && Descends(r)
    requires r.target !in NodesOf(order)
    requires order[i].depth + 1 <= MAX_BROWSE_DEPTH
    requires forall j :: 0 <= j < |order| ==> order[j].depth <= order[i].depth + 1
    requires child == Entry(r.target, order[i].path + [r.name], order[i].depth + 1)
    ensures Walked(g, root, order + [child], i)
    ensures NodesOf(order + [child]) == NodesOf(order) + {r.target}
  {
    hide Ball, AtDistance, HasParent, Closed, Listed, Linked;
    var next := order + [child];
    ChildDistance(g, root, order, i, r);
    forall j | 0 < j < |next|
      ensures HasParent(g, next, j)
    {
      if j < |order| {
        ParentGrows(g, order, child, j);
      } else {
        ChildHasParent(g, order, i, r, child);
      }
    }
    forall j | 0 <= j < i
      ensures Closed(next, Refs(g, next[j].node), next[j])
    {
      ClosedGrows(order, child, Refs(g, order[j].node), order[j]);
    }
    forall n | n in NodesOf(next)
      ensures n in NodesOf(order) + {r.target}
    {
      var j :| 0 <= j < |next| && next[j].node == n;
      assert j < |order| ==> order[j].node == n;
    }
    forall n | n in NodesOf(order) + {r.target}
      ensures n in NodesOf(next)
    {
      if n != r.target {
        var j :| 0 <= j < |order| && order[j].node == n;
        assert next[j].node == n;
      } else {
        assert next[|order|].node == n;
      }
    }
  }

  // ---- The walk ----

  // The state between two expansions.
  ghost predicate Progress(g: Graph, root: NodeId, order: seq<Entry>, i: nat) {
    && Walked(g, root, order, i)
    && i <= MAX_BROWSE_NODES
    && (forall j :: 0 <= j < i ==> g(order[j].node).Ok?)
    && (i == 0 ==> |order| == 1)
    && (i > 0 ==> forall j :: 0 <= j < |order| ==> order[j].depth <= order[i - 1].depth + 1)
  }

  // What a browse returns, in terms of a discovery order whose first `expanded` entries it expanded:
  // the points of those entries, cut short only past the cap, or the error of the next entry.
  ghost predicate Browsed(g: Graph, root: NodeId, result: Result<BrowseOutcome, string>,
                          order: seq<Entry>, expanded: nat) {
    && Progress(g, root, order, expanded)
    && match result
       case Ok(outcome) =>
         && outcome.points == PointsOf(g, order[..expanded])
         && (if outcome.truncated then |order| > MAX_BROWSE_NODES else expanded == |order|)
       case Err(e) =>
         && expanded < |order| <= MAX_BROWSE_NODES
         && g(order[expanded].node).Err? && g(order[expanded].node).error == e
  }

  lemma {:induction false} SubsetCount<T>(a: set<T>, b: set<T>)
    requires a <= b
    ensures |a| <= |b|
  {
    if a != {} {
      var x :| x in a;
      SubsetCount(a - {x}, b - {x});
    }
  }

  // A successful browse is cut short exactly when more nodes than the cap lie within the depth
  // limit; otherwise it has expanded precisely those nodes, each once.
  lemma BrowseComplete(g: Graph, root: NodeId, outcome: BrowseOutcome, order: seq<Entry>, expanded: nat)
    requires Browsed(g, root, Ok(outcome), order, expanded)
    ensures outcome.truncated <==> |Ball(g, root, MAX_BROWSE_DEPTH)| > MAX_BROWSE_NODES
    ensures !outcome.truncated ==>
      && Distinct(order) && NodesOf(order) == Ball(g, root, MAX_BROWSE_DEPTH)
      && (forall j :: 0 <= j < |order| ==> AtDistance(g, root, order[j].node, order[j].depth))
      && outcome.points == PointsOf(g, order)
    ensures outcome.truncated ==> NodesOf(order[..expanded]) <= Ball(g, root, MAX_BROWSE_DEPTH)
  {
    hide Ball, HasParent, Closed;
    DistinctCount(order);
    NodesInBall(g, root, order, expanded);
    if outcome.truncated {
      SubsetCount(NodesOf(order), Ball(g, root, MAX_BROWSE_DEPTH));
    } else {
      WalkedIsBall(g, root, order);
      assert order[..expanded] == order;
    }
  }

  // Some node within the depth limit refers to the variable.
  ghost predicate Reachable(g: Graph, root: NodeId, v: NodeId) {
    exists n :: n in Ball(g, root, MAX_BROWSE_DEPTH) && Refers(g, n, v)
  }

  // A browse that was not cut short finds exactly the variables some node within the depth limit
  // refers to.
  lemma VariablesFound(g: Graph, root: NodeId, outcome: BrowseOutcome, order: seq<Entry>, expanded: nat, v: NodeId)
    requires Browsed(g, root, Ok(outcome), order, expanded) && !outcome.truncated
    ensures HasPoint(outcome.points, v) <==> Reachable(g, root, v)
  {
    hide Ball, Refers, HasPoint, Browsed;
    BrowseComplete(g, root, outcome, order, expanded);
    PointsOfEntries(g, order, v);
    forall j | 0 <= j < |order|
      ensures order[j].node in NodesOf(order)
    {
    }
  }

  // The path names the references of some walk from the root to the node.
  ghost predicate NamesWalk(g: Graph, root: NodeId, path: seq<string>, n: NodeId)
    decreases |path|
  {
    if path == [] then n == root
    else
      exists a, r :: r in Refs(g, a) && Descends(r) && r.target == n && r.name == path[|path| - 1] &&
        NamesWalk(g, root, path[..|path| - 1], a)
  }

  // The tag path of a node names a shortest walk to it.
  lemma {:induction false} PathNamesShortestWalk(g: Graph, root: NodeId, order: seq<Entry>, i: nat, j: nat)
    requires Walked(g, root, order, i) && j < |order|
    ensures NamesWalk(g, root, order[j].path, order[j].node) && |order[j].path| == order[j].depth
    ensures AtDistance(g, root, order[j].node, order[j].depth)
    decreases j
  {
    hide Ball, AtDistance, Closed, Distinct, DepthsAscend;
    if j > 0 {
      assert HasParent(g, order, j);
      var p: nat, r :| p < j && r in Refs(g, order[p].node) && Descends(r) &&
        r.target == order[j].node && order[j].depth == order[p].depth + 1 &&
        order[j].path == order[p].path + [r.name];
      PathNamesShortestWalk(g, root, order, i, p);
      assert order[j].path[..|order[j].path| - 1] == order[p].path;
    }
  }

  // Within the cap, a browse succeeds exactly when every node within the depth limit can be browsed.
  lemma BrowseSucceedsExactly(g: Graph, root: NodeId, result: Result<BrowseOutcome, string>,
                              order: seq<Entry>, expanded: nat)
    requires Browsed(g, root, result, order, expanded)
    requires |Ball(g, root, MAX_BROWSE_DEPTH)| <= MAX_BROWSE_NODES
    ensures result.Ok? <==> forall n :: n in Ball(g, root, MAX_BROWSE_DEPTH) ==> g(n).Ok?
  {
    if result.Ok? {
      BrowseComplete(g, root, result.value, order, expanded);
    } else {
      NodesInBall(g, root, order, expanded);
      assert order[expanded].node in NodesOf(order);
    }
  }

  // The state while entry i is being expanded: its first k references have been handled.
  ghost predicate Expanding(g: Graph, root: NodeId, order: seq<Entry>, i: nat, refs: seq<Reference>, k: nat) {
    && Walked(g, root, order, i)
    && i < |order|
    && k <= |refs|
    && refs == Refs(g, order[i].node)
    && (forall j :: 0 <= j < |order| ==> order[j].depth <= order[i].depth + 1)
    && Closed(order, refs[..k], order[i])
  }

  lemma StartExpanding(g: Graph, root: NodeId, order: seq<Entry>, i: nat, refs: seq<Reference>)
    requires Progress(g, root, order, i) && i < |order| && g(order[i].node) == Ok(refs)
    ensures Expanding(g, root, order, i, refs, 0)
  {
  }

  lemma FinishExpanding(g: Graph, root: NodeId, before: seq<Entry>, order: seq<Entry>, i: nat, refs: seq<Reference>)
    requires Progress(g, root, before, i) && i < |before| && before <= order
    requires Expanding(g, root, order, i, refs, |refs|) && g(order[i].node).Ok? && i < MAX_BROWSE_NODES
    ensures Progress(g, root, order, i + 1) && i + 1 <= |order|
    ensures PointsOf(g, order[..i + 1]) == PointsOf(g, before[..i]) + VariablePoints(refs, order[i].path)
  {
    hide Ball, AtDistance, HasParent, Closed, Distinct, DepthsAscend, VariablePoints, Linked, Walked, PointsOf, Refs,
      Expanding;
    MorePoints(g, before, order, i);
    EntryClosed(g, root, order, i, refs);
    assert forall j :: 0 <= j < i ==> order[j] == before[j];
  }

  lemma EntryClosed(g: Graph, root: NodeId, order: seq<Entry>, i: nat, refs: seq<Reference>)
    requires Expanding(g, root, order, i, refs, |refs|)
    ensures Walked(g, root, order, i + 1) && i + 1 <= |order|
    ensures refs == Refs(g, order[i].node) && forall j :: 0 <= j < |order| ==> order[j].depth <= order[i].depth + 1
  {
    assert refs[..|refs|] == refs;
    hide Ball, AtDistance, HasParent, Closed, Distinct, DepthsAscend, Linked;
  }

  lemma MorePoints(g: Graph, before: seq<Entry>, order: seq<Entry>, i: nat)
    requires before <= order && i < |before|
    ensures PointsOf(g, order[..i + 1]) ==
      PointsOf(g, before[..i]) + VariablePoints(Refs(g, order[i].node), order[i].path)
  {
    assert order[..i + 1][..i] == before[..i];
    hide VariablePoints, Refs;
  }

  lemma Start(g: Graph, root: NodeId)
    ensures Progress(g, root, [Entry(root, [], 0)], 0)
    ensures NodesOf([Entry(root, [], 0)]) == {root}
  {
    assert [Entry(root, [], 0)][0].node == root;
  }

  // The visited set counts the expanded entries and the frontier.
  lemma ProgressCount(g: Graph, root: NodeId, order: seq<Entry>, i: nat)
    requires Progress(g, root, order, i)
    ensures i <= |order| == |NodesOf(order)| && i <= MAX_BROWSE_NODES
  {
    DistinctCount(order);
  }

  // A reference the walk does not descend, or whose target is listed, adds nothing.
  lemma SkipReference(g: Graph, root: NodeId, order: seq<Entry>, i: nat, refs: seq<Reference>, k: nat)
    requires Expanding(g, root, order, i, refs, k) && k < |refs|
    requires Descends(refs[k]) && order[i].depth < MAX_BROWSE_DEPTH ==> refs[k].target in NodesOf(order)
    ensures Expanding(g, root, order, i, refs, k + 1)
  {
    if order[i].depth < MAX_BROWSE_DEPTH {
      forall r | r in refs[..k + 1] && Descends(r)
        ensures Listed(order, r.target, order[i].depth + 1)
      {
        if r !in refs[..k] {
          assert r == refs[k];
        }
      }
    }
  }

  lemma PushReference(g: Graph, root: NodeId, order: seq<Entry>, i: nat, refs: seq<Reference>, k: nat, child: Entry)
    requires Expanding(g, root, order, i, refs, k) && k < |refs|
    requires Descends(refs[k]) && order[i].depth + 1 <= MAX_BROWSE_DEPTH
    requires refs[k].target !in NodesOf(order)
    requires child == Entry(refs[k].target, order[i].path + [refs[k].name], order[i].depth + 1)
    ensures Expanding(g, root, order + [child], i, refs, k + 1)
    ensures NodesOf(order + [child]) == NodesOf(order) + {refs[k].target}
  {
    Push(g, root, order, i, refs[k], child);
    ClosedGrows(order, child, refs[..k], order[i]);
    SkipReference(g, root, order + [child], i, refs, k);
  }

  // The inner loop: one pass over the references of the entry just taken off the frontier.
  method ExpandEntry(ghost g: Graph, ghost root: NodeId, entry: Entry, refs: seq<Reference>,
                     points0: seq<Point>, visited0: set<NodeId>, frontier0: seq<Entry>,
                     ghost order0: seq<Entry>, ghost i: nat)
    returns (points: seq<Point>, visited: set<NodeId>, frontier: seq<Entry>, ghost order: seq<Entry>)
    requires Expanding(g, root, order0, i, refs, 0)
    requires entry == order0[i] && frontier0 == order0[i + 1..] && visited0 == NodesOf(order0)
    ensures order0 <= order
    ensures Expanding(g, root, order, i, refs, |refs|)
    ensures frontier == order[i + 1..] && visited == NodesOf(order)
    ensures points == points0 + VariablePoints(refs, entry.path)
  {
    hide Ball, Walked, Closed;
    points, visited, frontier, order := points0, visited0, frontier0, order0;
    for k := 0 to |refs|
      invariant order0 <= order
      invariant Expanding(g, root, order, i, refs, k)
      invariant frontier == order[i + 1..] && visited == NodesOf(order)
      invariant points == points0 + VariablePoints(refs[..k], entry.path)
    {
      var r := refs[k];
      assert refs[..k + 1][..k] == refs[..k];
      if r.isForward && r.nodeClass == Object && r.target.namespace != 0 &&
         entry.depth + 1 <= MAX_BROWSE_DEPTH && r.target !in visited
      {
        var child := Entry(r.target, entry.path + [r.name], entry.depth + 1);
        PushReference(g, root, order, i, refs, k, child);
        visited := visited + {r.target};
        frontier := frontier + [child];
        order := order + [child];
      } else {
        SkipReference(g, root, order, i, refs, k);
        if r.isForward && r.nodeClass == Variable {
          points := points + [Point(r.target, entry.path + [r.name])];
        }
      }
    }
    assert refs[..|refs|] == refs;
  }

  lemma TakeFirst(order: seq<Entry>, i: nat)
    requires i < |order|
    ensures order[i..][0] == order[i] && order[i..][1..] == order[i + 1..]
  {
  }

  lemma BrowseEnds(g: Graph, root: NodeId, points: seq<Point>, truncated: bool, order: seq<Entry>, expanded: nat)
    requires Progress(g, root, order, expanded) && expanded <= |order|
    requires points == PointsOf(g, order[..expanded])
    requires if truncated then |order| > MAX_BROWSE_NODES else expanded == |order|
    ensures Browsed(g, root, Ok(BrowseOutcome(points, truncated)), order, expanded)
  {
  }

  lemma BrowseFails(g: Graph, root: NodeId, order: seq<Entry>, expanded: nat, error: string)
    requires Progress(g, root, order, expanded) && expanded < |order| <= MAX_BROWSE_NODES
    requires g(order[expanded].node) == Err(error)
    ensures Browsed(g, root, Err(error), order, expanded)
  {
  }

  // The result of some breadth-first discovery order.
  ghost predicate IsBrowse(g: Graph, root: NodeId, result: Result<BrowseOutcome, string>) {
    exists order, expanded :: Browsed(g, root, result, order, expanded)
  }

  ghost predicate AllBrowsable(g: Graph, root: NodeId) {
    forall n :: n in Ball(g, root, MAX_BROWSE_DEPTH) ==> g(n).Ok?
  }

  ghost predicate FindsReachable(g: Graph, root: NodeId, points: seq<Point>) {
    forall v :: HasPoint(points, v) <==> Reachable(g, root, v)
  }

  // The points of a walk that expanded every node within the depth limit once, at its distance.
  ghost predicate ListsAll(g: Graph, root: NodeId, order: seq<Entry>, points: seq<Point>) {
    && Distinct(order) && NodesOf(order) == Ball(g, root, MAX_BROWSE_DEPTH) && DepthsAscend(order)
    && (forall j :: 0 <= j < |order| ==> AtDistance(g, root, order[j].node, order[j].depth))
    && PointPerReference(g, order, points)
  }

  ghost predicate OnePointPerReference(g: Graph, root: NodeId, points: seq<Point>) {
    exists order :: ListsAll(g, root, order, points)
  }

  lemma CompleteLists(g: Graph, root: NodeId, outcome: BrowseOutcome, order: seq<Entry>, expanded: nat)
    requires Browsed(g, root, Ok(outcome), order, expanded) && !outcome.truncated
    ensures ListsAll(g, root, order, outcome.points)
  {
    BrowseComplete(g, root, outcome, order, expanded);
    hide PointPerReference, PointsOf, Ball, AtDistance, Distinct, NodesOf, DepthsAscend, HasParent, Closed;
    PointsOfPerReference(g, order);
  }

  lemma BrowseGuarantees(g: Graph, root: NodeId, result: Result<BrowseOutcome, string>, order: seq<Entry>, expanded: nat)
    requires Browsed(g, root, result, order, expanded)
    ensures IsBrowse(g, root, result)
    ensures |Ball(g, root, MAX_BROWSE_DEPTH)| <= MAX_BROWSE_NODES ==> (result.Ok? <==> AllBrowsable(g, root))
    ensures result.Ok? ==> (result.value.truncated <==> |Ball(g, root, MAX_BROWSE_DEPTH)| > MAX_BROWSE_NODES)
    ensures result.Ok? && !result.value.truncated ==>
      OnePointPerReference(g, root, result.value.points) && FindsReachable(g, root, result.value.points)
  {
    hide Ball, Browsed, Reachable, HasPoint, ListsAll;
    if |Ball(g, root, MAX_BROWSE_DEPTH)| <= MAX_BROWSE_NODES {
      BrowseSucceedsExactly(g, root, result, order, expanded);
    }
    if result.Ok? {
      BrowseComplete(g, root, result.value, order, expanded);
      if !result.value.truncated {
        CompleteLists(g, root, result.value, order, expanded);
        forall v
          ensures HasPoint(result.value.points, v) <==> Reachable(g, root, v)
        {
          VariablesFound(g, root, result.value, order, expanded, v);
        }
      }
    }
  }

  method BrowseVariables(g: Graph, root: NodeId) returns (result: Result<BrowseOutcome, string>)
    ensures IsBrowse(g, root, result)
    ensures |Ball(g, root, MAX_BROWSE_DEPTH)| <= MAX_BROWSE_NODES ==> (result.Ok? <==> AllBrowsable(g, root))
    ensures result.Ok? ==> (result.value.truncated <==> |Ball(g, root, MAX_BROWSE_DEPTH)| > MAX_BROWSE_NODES)
    ensures result.Ok? && !result.value.truncated ==>
      OnePointPerReference(g, root, result.value.points) && FindsReachable(g, root, result.value.points)
  {
    var points: seq<Point> := [];
    var visited: set<NodeId> := {root};
    var frontier: seq<Entry> := [Entry(root, [], 0)];
    Start(g, root);
    assert PointsOf(g, []) == [];
    hide *;
    var truncated := false;
    ghost var order := frontier;
    ghost var expanded: nat := 0;
    while frontier != []
      invariant Progress(g, root, order, expanded)
      invariant expanded <= |order| && expanded <= MAX_BROWSE_NODES
      invariant frontier == order[expanded..] && visited == NodesOf(order)
      invariant points == PointsOf(g, order[..expanded])
      decreases MAX_BROWSE_NODES - expanded
    {
      TakeFirst(order, expanded);
      var entry := frontier[0];
      frontier := frontier[1..];
      ProgressCount(g, root, order, expanded);
      if |visited| > MAX_BROWSE_NODES {
        truncated := true;
        break;
      }
      var children := g(entry.node);
      if children.Err? {
        result := Err(children.error);
        BrowseFails(g, root, order, expanded, children.error);
        BrowseGuarantees(g, root, result, order, expanded);
        return;
      }
      ghost var before := order;
      StartExpanding(g, root, order, expanded, children.value);
      points, visited, frontier, order :=
        ExpandEntry(g, root, entry, children.value, points, visited, frontier, order, expanded);
      FinishExpanding(g, root, before, order, expanded, children.value);
      expanded := expanded + 1;
    }
    result := Ok(BrowseOutcome(points, truncated));
    BrowseEnds(g, root, points, truncated, order, expanded);
    BrowseGuarantees(g, root, result, order, expanded);
  }

  // ---- Browsing one node, page by page ----

  datatype Page = Page(references: Option<seq<Reference>>, hasMore: bool)

  // What the server answers to the browse and to each continuation: an error, no result, or a page.
  type Reply = Result<Option<Page>, string>

  predicate Stops(reply: Reply) {
    reply.Err? || reply.value.None? || !reply.value.value.hasMore
  }

  // The server does not hand out continuation points for ever.
  predicate Terminates(replies: seq<Reply>) {
    exists k :: 0 <= k < |replies| && Stops(replies[k])
  }

  function PageRefs(reply: Reply): seq<Reference> {
    if reply.Ok? && reply.value.Some? && reply.value.value.references.Some?
    then reply.value.value.references.value else []
  }

  function AllRefs(replies: seq<Reply>): seq<Reference> {
    if replies == [] then [] else AllRefs(replies[..|replies| - 1]) + PageRefs(replies[|replies| - 1])
  }

  lemma AllRefsStep(replies: seq<Reply>, k: nat)
    requires k < |replies|
    ensures AllRefs(replies[..k + 1]) == AllRefs(replies[..k]) + PageRefs(replies[k])
  {
    assert replies[..k + 1][..k] == replies[..k];
    hide PageRefs;
  }

  // The references of a node: those of all pages up to reply k, the first that stops, or its error.
  ghost predicate GatheredTo(replies: seq<Reply>, k: nat, result: Result<seq<Reference>, string>) {
    && k < |replies| && Stops(replies[k]) && (forall j :: 0 <= j < k ==> !Stops(replies[j]))
    && result == if replies[k].Err? then Err(replies[k].error) else Ok(AllRefs(replies[..k + 1]))
  }

  ghost predicate Gathered(replies: seq<Reply>, result: Result<seq<Reference>, string>) {
    exists k :: GatheredTo(replies, k, result)
  }

  method BrowseChildren(replies: seq<Reply>) returns (result: Result<seq<Reference>, string>)
    requires Terminates(replies)
    ensures Gathered(replies, result)
  {
    hide AllRefs;
    var first := replies[0];
    AllRefsStep(replies, 0);
    NoRefs(replies);
    if first.Err? {
      result := Err(first.error);
      assert GatheredTo(replies, 0, result);
      return;
    }
    if first.value.None? {
      result := Ok([]);
      assert GatheredTo(replies, 0, result);
      return;
    }
    var out := PageRefs(first);
    var more := first.value.value.hasMore;
    var k := 0;
    while more
      invariant 0 <= k < |replies| && replies[k].Ok?
      invariant forall j :: 0 <= j < k ==> !Stops(replies[j])
      invariant more <==> !Stops(replies[k])
      invariant out == AllRefs(replies[..k + 1])
      decreases |replies| - k, more
    {
      k := k + 1;
      AllRefsStep(replies, k);
      var next := replies[k];
      if next.Err? {
        result := Err(next.error);
        assert GatheredTo(replies, k, result);
        return;
      }
      if next.value.None? {
        assert out + PageRefs(next) == out;
        break;
      }
      if next.value.value.references.Some? {
        out := out + next.value.value.references.value;
      }
      more := next.value.value.hasMore;
    }
    result := Ok(out);
    assert GatheredTo(replies, k, result);
  }

  lemma NoRefs(replies: seq<Reply>)
    ensures AllRefs(replies[..0]) == []
  {
  }

  function Paged(chunks: seq<seq<Reference>>): seq<Reply> {
    seq(|chunks|, k requires 0 <= k < |chunks| => Ok(Some(Page(Some(chunks[k]), k < |chunks| - 1))))
  }

  function Joined(chunks: seq<seq<Reference>>): seq<Reference> {
    if chunks == [] then [] else Joined(chunks[..|chunks| - 1]) + chunks[|chunks| - 1]
  }

  lemma {:induction false} PagesJoin(chunks: seq<seq<Reference>>, k: nat)
    requires k <= |chunks|
    ensures AllRefs(Paged(chunks)[..k]) == Joined(chunks[..k])
  {
    if k > 0 {
      PagesJoin(chunks, k - 1);
      assert Paged(chunks)[..k][..k - 1] == Paged(chunks)[..k - 1];
      assert chunks[..k][..k - 1] == chunks[..k - 1];
    }
  }

  // However the server cuts the references of a node into pages, browsing it puts them together again.
  lemma PagingInvisible(chunks: seq<seq<Reference>>, result: Result<seq<Reference>, string>)
    requires Gathered(Paged(chunks), result)
    ensures result == Ok(Joined(chunks))
  {
    var stop :| GatheredTo(Paged(chunks), stop, result);
    var replies, last := Paged(chunks), |chunks| - 1;
    assert Stops(replies[last]);
    assert forall j :: 0 <= j < last ==> !Stops(replies[j]);
    PagesJoin(chunks, |chunks|);
    assert replies[..last + 1] == replies[..|chunks|] && chunks[..|chunks|] == chunks;
    hide AllRefs, Joined;
  }
}
