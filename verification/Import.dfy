// Merging imported points into the configured ones, keyed by identity.
module Import {
  import opened Wrappers
  import opened Model
  import Text

  datatype MergeResult = MergeResult(points: seq<PointConfig>, added: nat, updated: nat)

  // ---- Merging one point ----

  // The last point of that identity; the number of points when there is none.
  function LastIndex(points: seq<PointConfig>, id: PointIdentity): (k: nat)
    ensures k <= |points| && (k < |points| ==> Identity(points[k]) == id)
    ensures forall j :: 0 <= j < |points| && (k == |points| || k < j) ==> Identity(points[j]) != id
  {
    if points == [] then 0
    else if Identity(points[|points| - 1]) == id then |points| - 1
    else
      var k := LastIndex(points[..|points| - 1], id);
      if k == |points| - 1 then |points| else k
  }

  predicate Blank(s: string) {
    Text.Trim(s) == ""
  }

  // Blank fields of the import leave the existing ones alone.
  function Overlay(existing: PointConfig, imported: PointConfig): PointConfig {
    existing.(
      tagPath := if Blank(imported.tagPath) then existing.tagPath else imported.tagPath,
      deviceKey := if Blank(imported.deviceKey) then existing.deviceKey else imported.deviceKey)
  }

  function MergeOne(points: seq<PointConfig>, p: PointConfig): seq<PointConfig> {
    var k := LastIndex(points, Identity(p));
    if k < |points| then points[k := Overlay(points[k], p)] else points + [p]
  }

  function MergeAll(points: seq<PointConfig>, imported: seq<PointConfig>): seq<PointConfig> {
    if imported == [] then points
    else MergeOne(MergeAll(points, imported[..|imported| - 1]), imported[|imported| - 1])
  }

  function Added(points: seq<PointConfig>, imported: seq<PointConfig>): nat {
    if imported == [] then 0
    else
      var n := |imported| - 1;
      var before := MergeAll(points, imported[..n]);
      Added(points, imported[..n]) + if LastIndex(before, Identity(imported[n])) == |before| then 1 else 0
  }

  function Updated(points: seq<PointConfig>, imported: seq<PointConfig>): nat {
    if imported == [] then 0
    else
      var n := |imported| - 1;
      var before := MergeAll(points, imported[..n]);
      var k := LastIndex(before, Identity(imported[n]));
      Updated(points, imported[..n]) + if k < |before| && Overlay(before[k], imported[n]) != before[k] then 1 else 0
  }

  // ---- The loop with its index ----

  // The index agrees with a search for the last point of an identity.
  ghost predicate IndexAgrees(index: map<PointIdentity, nat>, points: seq<PointConfig>) {
    forall id ::
      (id in index <==> LastIndex(points, id) < |points|) && (id in index ==> index[id] == LastIndex(points, id))
  }

  lemma IndexAppend(index: map<PointIdentity, nat>, points: seq<PointConfig>, p: PointConfig)
    requires IndexAgrees(index, points)
    ensures IndexAgrees(index[Identity(p) := |points|], points + [p])
  {
    assert (points + [p])[..|points|] == points;
  }

  lemma IndexOverlay(index: map<PointIdentity, nat>, points: seq<PointConfig>, k: nat, p: PointConfig)
    requires IndexAgrees(index, points) && k < |points| && Identity(p) == Identity(points[k])
    ensures IndexAgrees(index, points[k := p])
  {
    var next := points[k := p];
    forall id
      ensures LastIndex(next, id) == LastIndex(points, id)
    {
      SameIdentities(points, next, id);
    }
  }

  lemma {:induction false} SameIdentities(a: seq<PointConfig>, b: seq<PointConfig>, id: PointIdentity)
    requires |a| == |b| && forall j :: 0 <= j < |a| ==> Identity(a[j]) == Identity(b[j])
    ensures LastIndex(a, id) == LastIndex(b, id)
  {
    if a != [] {
      SameIdentities(a[..|a| - 1], b[..|b| - 1], id);
    }
  }

  method MergeImportedPoints(existing: seq<PointConfig>, imported: seq<PointConfig>) returns (r: MergeResult)
    ensures r == MergeResult(MergeAll(existing, imported), Added(existing, imported), Updated(existing, imported))
  {
    hide LastIndex, IndexAgrees, Blank;
    var points := existing;
    var index: map<PointIdentity, nat> := IndexPoints(existing);
    var added, updated := 0, 0;
    for i := 0 to |imported|
      invariant points == MergeAll(existing, imported[..i])
      invariant added == Added(existing, imported[..i]) && updated == Updated(existing, imported[..i])
      invariant IndexAgrees(index, points)
    {
      assert imported[..i + 1][..i] == imported[..i];
      var point := imported[i];
      var identity := Identity(point);
      AgreedIndex(index, points, identity);
      if identity in index {
        var k := index[identity];
        var current := points[k];
        var changed := false;
        if !Blank(point.tagPath) && current.tagPath != point.tagPath {
          current := current.(tagPath := point.tagPath);
          changed := true;
        }
        if !Blank(point.deviceKey) && current.deviceKey != point.deviceKey {
          current := current.(deviceKey := point.deviceKey);
          changed := true;
        }
        assert current == Overlay(points[k], point) && (changed <==> current != points[k]);
        if changed {
          updated := updated + 1;
        }
        IndexOverlay(index, points, k, current);
        points := points[k := current];
      } else {
        IndexAppend(index, points, point);
        var last: nat := |points|;
        index := index[identity := last];
        points := points + [point];
        added := added + 1;
      }
    }
    assert imported[..|imported|] == imported;
    r := MergeResult(points, added, updated);
  }

  lemma AgreedIndex(index: map<PointIdentity, nat>, points: seq<PointConfig>, id: PointIdentity)
    requires IndexAgrees(index, points)
    ensures id in index <==> LastIndex(points, id) < |points|
    ensures LastIndex(points, id) <= |points|
    ensures id in index ==> index[id] == LastIndex(points, id) && Identity(points[index[id]]) == id
  {
  }

  method IndexPoints(points: seq<PointConfig>) returns (index: map<PointIdentity, nat>)
    ensures IndexAgrees(index, points)
  {
    index := map[];
    for k := 0 to |points|
      invariant IndexAgrees(index, points[..k])
    {
      IndexAppend(index, points[..k], points[k]);
      assert points[..k + 1] == points[..k] + [points[k]];
      index := index[Identity(points[k]) := k];
    }
    assert points[..|points|] == points;
  }

  // ---- What a merge keeps ----

  // Everything of an existing point but its labels stays, at its position.
  lemma {:induction false} MergeKeepsExisting(points: seq<PointConfig>, imported: seq<PointConfig>)
    ensures |MergeAll(points, imported)| == |points| + Added(points, imported)
    ensures forall k :: 0 <= k < |points| ==>
      MergeAll(points, imported)[k].(tagPath := points[k].tagPath, deviceKey := points[k].deviceKey) == points[k]
  {
    if imported != [] {
      hide LastIndex;
      var n := |imported| - 1;
      MergeKeepsExisting(points, imported[..n]);
      LastIndexBound(MergeAll(points, imported[..n]), Identity(imported[n]));
    }
  }

  lemma LastIndexBound(points: seq<PointConfig>, id: PointIdentity)
    ensures LastIndex(points, id) <= |points|
    ensures LastIndex(points, id) < |points| ==> Identity(points[LastIndex(points, id)]) == id
  {
  }

  ghost predicate Has(points: seq<PointConfig>, id: PointIdentity) {
    exists k :: 0 <= k < |points| && Identity(points[k]) == id
  }

  lemma HasIndexed(points: seq<PointConfig>, id: PointIdentity)
    ensures Has(points, id) <==> LastIndex(points, id) < |points|
  {
  }

  lemma MergeOneIdentities(points: seq<PointConfig>, p: PointConfig, id: PointIdentity)
    ensures Has(MergeOne(points, p), id) <==> Has(points, id) || Identity(p) == id
  {
    hide LastIndex;
    var k := LastIndex(points, Identity(p));
    LastIndexBound(points, Identity(p));
    var next := MergeOne(points, p);
    if k < |points| {
      assert forall j :: 0 <= j < |points| ==> Identity(next[j]) == Identity(points[j]);
      assert Identity(next[k]) == Identity(p);
    } else {
      assert next[|points|] == p;
      assert forall j :: 0 <= j < |points| ==> next[j] == points[j];
    }
  }

  lemma HasSplits(front: seq<PointConfig>, p: PointConfig, id: PointIdentity)
    ensures Has(front + [p], id) <==> Has(front, id) || Identity(p) == id
  {
    var points := front + [p];
    assert points[|front|] == p;
    if Has(front, id) {
      var k :| 0 <= k < |front| && Identity(front[k]) == id;
      assert Identity(points[k]) == id;
    }
  }

  // The identities after a merge are those before and those imported.
  lemma {:induction false} MergeUnitesIdentities(points: seq<PointConfig>, imported: seq<PointConfig>, id: PointIdentity)
    ensures Has(MergeAll(points, imported), id) <==> Has(points, id) || Has(imported, id)
  {
    if imported == [] {
      assert !Has(imported, id);
    } else {
      var n := |imported| - 1;
      var front, last := imported[..n], imported[n];
      assert imported == front + [last];
      hide Has, MergeOne;
      MergeUnitesIdentities(points, front, id);
      MergeOneIdentities(MergeAll(points, front), last, id);
      HasSplits(front, last, id);
    }
  }

  ghost predicate NoDuplicates(points: seq<PointConfig>) {
    forall j, k :: 0 <= j < k < |points| ==> Identity(points[j]) != Identity(points[k])
  }

  lemma {:induction false} MergeKeepsUnique(points: seq<PointConfig>, imported: seq<PointConfig>)
    requires NoDuplicates(points)
    ensures NoDuplicates(MergeAll(points, imported))
  {
    if imported != [] {
      var n := |imported| - 1;
      var before := MergeAll(points, imported[..n]);
      MergeKeepsUnique(points, imported[..n]);
      var next := MergeOne(before, imported[n]);
      assert forall j :: 0 <= j < |before| ==> Identity(next[j]) == Identity(before[j]);
    }
  }

  // ---- What the counts count ----

  // Merging imported point i appends a point, or changes one.
  ghost predicate Appends(points: seq<PointConfig>, imported: seq<PointConfig>, i: nat) {
    i < |imported| && |MergeAll(points, imported[..i + 1])| > |MergeAll(points, imported[..i])|
  }

  ghost predicate Changes(points: seq<PointConfig>, imported: seq<PointConfig>, i: nat) {
    i < |imported| && !Appends(points, imported, i) && MergeAll(points, imported[..i + 1]) != MergeAll(points, imported[..i])
  }

  ghost function Appending(points: seq<PointConfig>, imported: seq<PointConfig>): set<nat> {
    set i: nat | i < |imported| && Appends(points, imported, i)
  }

  ghost function Changing(points: seq<PointConfig>, imported: seq<PointConfig>): set<nat> {
    set i: nat | i < |imported| && Changes(points, imported, i)
  }

  lemma MergeOneShape(points: seq<PointConfig>, p: PointConfig)
    ensures var k := LastIndex(points, Identity(p));
      if k == |points| then |MergeOne(points, p)| == |points| + 1
      else |MergeOne(points, p)| == |points| && (MergeOne(points, p) == points <==> Overlay(points[k], p) == points[k])
  {
    var k := LastIndex(points, Identity(p));
    LastIndexBound(points, Identity(p));
    hide LastIndex, Identity, Overlay;
    if k < |points| {
      assert MergeOne(points, p)[k] == Overlay(points[k], p);
    }
  }

  lemma StepsAreSame(points: seq<PointConfig>, front: seq<PointConfig>, p: PointConfig, i: nat)
    requires i < |front|
    ensures Appends(points, front + [p], i) <==> Appends(points, front, i)
    ensures Changes(points, front + [p], i) <==> Changes(points, front, i)
  {
    var all := front + [p];
    assert all[..i + 1] == front[..i + 1] && all[..i] == front[..i];
    hide MergeAll;
  }

  lemma LastStep(points: seq<PointConfig>, front: seq<PointConfig>, p: PointConfig)
    ensures var before := MergeAll(points, front);
      var k := LastIndex(before, Identity(p));
      && (Appends(points, front + [p], |front|) <==> k == |before|)
      && (Changes(points, front + [p], |front|) <==> k < |before| && Overlay(before[k], p) != before[k])
  {
    var all, before := front + [p], MergeAll(points, front);
    assert all[..|front| + 1] == all && all[..|front|] == front;
    assert MergeAll(points, all) == MergeOne(before, p);
    LastIndexBound(before, Identity(p));
    hide MergeAll, MergeOne, LastIndex, Identity, Overlay;
    MergeOneShape(before, p);
  }

  lemma OneMore(before: set<nat>, after: set<nat>, n: nat, more: bool)
    requires n !in before && forall i: nat :: i in after <==> i in before || (i == n && more)
    ensures |after| == |before| + if more then 1 else 0
  {
    assert after == if more then before + {n} else before;
  }

  lemma AppendingGrows(points: seq<PointConfig>, front: seq<PointConfig>, p: PointConfig)
    ensures |Appending(points, front + [p])| ==
      |Appending(points, front)| + if Appends(points, front + [p], |front|) then 1 else 0
  {
    hide Appends, Changes;
    var n: nat, all := |front|, front + [p];
    forall i: nat
      ensures i in Appending(points, all) <==> i in Appending(points, front) || (i == n && Appends(points, all, n))
    {
      if i < n {
        StepsAreSame(points, front, p, i);
      }
    }
    OneMore(Appending(points, front), Appending(points, all), n, Appends(points, all, n));
  }

  lemma ChangingGrows(points: seq<PointConfig>, front: seq<PointConfig>, p: PointConfig)
    ensures |Changing(points, front + [p])| ==
      |Changing(points, front)| + if Changes(points, front + [p], |front|) then 1 else 0
  {
    hide Appends, Changes;
    var n: nat, all := |front|, front + [p];
    forall i: nat
      ensures i in Changing(points, all) <==> i in Changing(points, front) || (i == n && Changes(points, all, n))
    {
      if i < n {
        StepsAreSame(points, front, p, i);
      }
    }
    OneMore(Changing(points, front), Changing(points, all), n, Changes(points, all, n));
  }

  // The added count is the number of imported points that were appended, the updated count the number
  // of those that changed a point.
  lemma {:induction false} CountsExact(points: seq<PointConfig>, imported: seq<PointConfig>)
    ensures Added(points, imported) == |Appending(points, imported)|
    ensures Updated(points, imported) == |Changing(points, imported)|
  {
    if imported == [] {
      assert Appending(points, imported) == {} && Changing(points, imported) == {};
    } else {
      hide *;
      var n: nat := |imported| - 1;
      var front, p := imported[..n], imported[n];
      assert imported == front + [p];
      CountsExact(points, front);
      CountsStep(points, front, p);
      LastStep(points, front, p);
      LastIndexBound(MergeAll(points, front), Identity(p));
      AppendingGrows(points, front, p);
      ChangingGrows(points, front, p);
    }
  }

  // ---- Merging the same import again ----

  // The last non-blank tag path, and device key, imported for an identity.
  function LastTag(imported: seq<PointConfig>, id: PointIdentity): Option<string> {
    if imported == [] then None
    else
      var p := imported[|imported| - 1];
      if Identity(p) == id && !Blank(p.tagPath) then Some(p.tagPath) else LastTag(imported[..|imported| - 1], id)
  }

  function LastKey(imported: seq<PointConfig>, id: PointIdentity): Option<string> {
    if imported == [] then None
    else
      var p := imported[|imported| - 1];
      if Identity(p) == id && !Blank(p.deviceKey) then Some(p.deviceKey) else LastKey(imported[..|imported| - 1], id)
  }

  function Relabelled(p: PointConfig, tag: Option<string>, key: Option<string>): PointConfig {
    p.(tagPath := if tag.Some? then tag.value else p.tagPath,
       deviceKey := if key.Some? then key.value else p.deviceKey)
  }

  // What one merged point does to position k: only the last point of its identity can change.
  lemma MergeOneAt(points: seq<PointConfig>, p: PointConfig, k: nat)
    requires k < |points|
    ensures k < |MergeOne(points, p)|
    ensures MergeOne(points, p)[k] == if LastIndex(points, Identity(p)) == k then Overlay(points[k], p) else points[k]
    ensures LastIndex(MergeOne(points, p), Identity(points[k])) == LastIndex(points, Identity(points[k]))
  {
    var next := MergeOne(points, p);
    var id := Identity(points[k]);
    LastIndexBound(points, Identity(p));
    if LastIndex(points, Identity(p)) < |points| {
      hide LastIndex;
      SameIdentities(points, next, id);
    } else {
      assert (points + [p])[..|points|] == points;
      hide Overlay, Identity;
    }
  }

  // Over a whole merge, the last point of an identity takes the last non-blank labels imported for
  // it; earlier points of the identity do not change.
  lemma {:induction false} MergeAt(points: seq<PointConfig>, imported: seq<PointConfig>, k: nat)
    requires k < |points|
    ensures var id := Identity(points[k]);
      var after := MergeAll(points, imported);
      && k < |after| && LastIndex(after, id) == LastIndex(points, id)
      && after[k] == if LastIndex(points, id) == k
                     then Relabelled(points[k], LastTag(imported, id), LastKey(imported, id)) else points[k]
  {
    if imported != [] {
      hide LastIndex, MergeOne, Blank;
      var n := |imported| - 1;
      var p := imported[n];
      var before := MergeAll(points, imported[..n]);
      MergeAt(points, imported[..n], k);
      MergeOneAt(before, p, k);
      LastIndexBound(before, Identity(p));
    }
  }

  lemma AppendedIsLast(points: seq<PointConfig>, p: PointConfig)
    ensures LastIndex(points + [p], Identity(p)) == |points|
  {
  }

  // The last point of the identity carries those labels.
  predicate Carries(points: seq<PointConfig>, id: PointIdentity, tag: Option<string>, key: Option<string>) {
    var k := LastIndex(points, id);
    && k < |points|
    && (tag.Some? ==> points[k].tagPath == tag.value)
    && (key.Some? ==> points[k].deviceKey == key.value)
  }

  lemma MergeOneCarries(points: seq<PointConfig>, p: PointConfig, id: PointIdentity,
                        tag: Option<string>, key: Option<string>)
    requires if LastIndex(points, id) < |points| then Carries(points, id, tag, key)
             else Identity(p) == id && tag.None? && key.None?
    ensures Carries(MergeOne(points, p), id,
              if Identity(p) == id && !Blank(p.tagPath) then Some(p.tagPath) else tag,
              if Identity(p) == id && !Blank(p.deviceKey) then Some(p.deviceKey) else key)
  {
    var k := LastIndex(points, id);
    LastIndexBound(points, id);
    LastIndexBound(points, Identity(p));
    hide LastIndex, Identity, Blank;
    if k < |points| {
      MergeOneAt(points, p, k);
    } else {
      AppendedIsLast(points, p);
    }
  }

  // After a merge, the last point of an imported identity carries its last non-blank labels, whether
  // the identity was there before or was added.
  lemma {:induction false} MergedLabels(points: seq<PointConfig>, imported: seq<PointConfig>, id: PointIdentity)
    requires Has(imported, id)
    ensures Carries(MergeAll(points, imported), id, LastTag(imported, id), LastKey(imported, id))
  {
    var n := |imported| - 1;
    var front, p := imported[..n], imported[n];
    var before := MergeAll(points, front);
    assert imported == front + [p];
    HasSplits(front, p, id);
    if Has(front, id) {
      MergedLabels(points, front, id);
    }
    hide LastIndex, Has, Identity, Blank, MergeOne, Carries;
    KnownOrUnnamed(points, front, id);
    MergeOneCarries(before, p, id, LastTag(front, id), LastKey(front, id));
  }

  // An identity not imported got no label, and its last point, if any, was there before.
  lemma KnownOrUnnamed(points: seq<PointConfig>, front: seq<PointConfig>, id: PointIdentity)
    ensures !Has(front, id) ==> LastTag(front, id).None? && LastKey(front, id).None?
    ensures !Has(front, id) ==>
      LastIndex(MergeAll(points, front), id) == |MergeAll(points, front)| ||
      Carries(MergeAll(points, front), id, None, None)
    ensures Has(front, id) ==> LastIndex(MergeAll(points, front), id) < |MergeAll(points, front)|
  {
    LabelsNeedImports(front, id);
    MergeUnitesIdentities(points, front, id);
    HasIndexed(MergeAll(points, front), id);
    LastIndexBound(MergeAll(points, front), id);
    hide Has, LastIndex, MergeAll;
  }

  lemma {:induction false} LabelsNeedImports(imported: seq<PointConfig>, id: PointIdentity)
    ensures LastTag(imported, id).Some? || LastKey(imported, id).Some? ==> Has(imported, id)
  {
    if imported != [] {
      var n := |imported| - 1;
      LabelsNeedImports(imported[..n], id);
      assert imported == imported[..n] + [imported[n]];
      HasSplits(imported[..n], imported[n], id);
    }
  }

  lemma {:induction false} NothingAdded(points: seq<PointConfig>, imported: seq<PointConfig>)
    requires forall i :: 0 <= i < |imported| ==> Has(points, Identity(imported[i]))
    ensures Added(points, imported) == 0
  {
    if imported != [] {
      var n := |imported| - 1;
      NothingAdded(points, imported[..n]);
      MergeUnitesIdentities(points, imported[..n], Identity(imported[n]));
      HasIndexed(MergeAll(points, imported[..n]), Identity(imported[n]));
    }
  }

  // Merging the same import a second time changes no point and adds none.
  lemma MergeAgain(points: seq<PointConfig>, imported: seq<PointConfig>)
    ensures var once := MergeAll(points, imported);
      MergeAll(once, imported) == once && Added(once, imported) == 0
  {
    var once := MergeAll(points, imported);
    var twice := MergeAll(once, imported);
    forall i | 0 <= i < |imported|
      ensures Has(once, Identity(imported[i]))
    {
      MergeUnitesIdentities(points, imported, Identity(imported[i]));
    }
    hide Has, MergeAll, Identity;
    NothingAdded(once, imported);
    MergeKeepsExisting(once, imported);
    forall k | 0 <= k < |once|
      ensures twice[k] == once[k]
    {
      var id := Identity(once[k]);
      MergeAt(once, imported, k);
      LabelsNeedImports(imported, id);
      if Has(imported, id) {
        MergedLabels(points, imported, id);
      }
    }
  }

  // ---- When the second merge reports no update ----

  // Imports of one identity that name a tag path, or a device key, name the same.
  ghost predicate Consistent(imported: seq<PointConfig>) {
    forall i, j :: 0 <= i < |imported| && 0 <= j < |imported| && Identity(imported[i]) == Identity(imported[j]) ==>
      (!Blank(imported[i].tagPath) && !Blank(imported[j].tagPath) ==> imported[i].tagPath == imported[j].tagPath) &&
      (!Blank(imported[i].deviceKey) && !Blank(imported[j].deviceKey) ==> imported[i].deviceKey == imported[j].deviceKey)
  }

  // An import says of its identity what the points already say.
  predicate SaysNothingNew(points: seq<PointConfig>, p: PointConfig) {
    var k := LastIndex(points, Identity(p));
    k < |points| && Overlay(points[k], p) == points[k]
  }

  ghost predicate AllSayNothingNew(points: seq<PointConfig>, imported: seq<PointConfig>) {
    forall i :: 0 <= i < |imported| ==> SaysNothingNew(points, imported[i])
  }

  lemma NothingNewSplits(points: seq<PointConfig>, front: seq<PointConfig>, p: PointConfig)
    ensures AllSayNothingNew(points, front + [p]) <==> AllSayNothingNew(points, front) && SaysNothingNew(points, p)
  {
    hide SaysNothingNew;
    var all := front + [p];
    assert all[|front|] == p;
    assert forall i :: 0 <= i < |front| ==> all[i] == front[i];
  }

  // The last step of a merge: what it adds to the counts.
  lemma CountsStep(points: seq<PointConfig>, front: seq<PointConfig>, p: PointConfig)
    ensures var before := MergeAll(points, front);
      var k := LastIndex(before, Identity(p));
      && MergeAll(points, front + [p]) == MergeOne(before, p)
      && Added(points, front + [p]) == Added(points, front) + (if k == |before| then 1 else 0)
      && Updated(points, front + [p]) ==
           Updated(points, front) + (if k < |before| && Overlay(before[k], p) != before[k] then 1 else 0)
  {
    assert (front + [p])[..|front|] == front;
    hide MergeOne, LastIndex, Overlay, Identity;
  }

  lemma NothingNewMerges(points: seq<PointConfig>, p: PointConfig)
    requires LastIndex(points, Identity(p)) < |points|
    ensures SaysNothingNew(points, p) ==> MergeOne(points, p) == points
  {
    hide LastIndex, Identity, Overlay;
  }

  lemma {:induction false} NoUpdatesExactly(points: seq<PointConfig>, imported: seq<PointConfig>)
    requires Added(points, imported) == 0
    ensures Updated(points, imported) == 0 <==> AllSayNothingNew(points, imported)
    ensures Updated(points, imported) == 0 ==> MergeAll(points, imported) == points
  {
    if imported != [] {
      var n := |imported| - 1;
      var front, p := imported[..n], imported[n];
      assert imported == front + [p];
      hide LastIndex, Identity, Overlay, AllSayNothingNew, MergeAll, MergeOne, Added, Updated;
      CountsStep(points, front, p);
      NoUpdatesExactly(points, front);
      NothingNewSplits(points, front, p);
      LastIndexBound(MergeAll(points, front), Identity(p));
      NothingNewMerges(MergeAll(points, front), p);
    }
  }

  lemma {:induction false} LastTagNamed(imported: seq<PointConfig>, id: PointIdentity, i: nat)
    requires i < |imported| && Identity(imported[i]) == id
    ensures !Blank(imported[i].tagPath) ==> LastTag(imported, id).Some?
    ensures !Blank(imported[i].deviceKey) ==> LastKey(imported, id).Some?
  {
    if i < |imported| - 1 {
      LastTagNamed(imported[..|imported| - 1], id, i);
    }
  }

  lemma {:induction false} LastTagFrom(imported: seq<PointConfig>, id: PointIdentity)
    ensures LastTag(imported, id).Some? ==>
      exists j :: 0 <= j < |imported| && Identity(imported[j]) == id && !Blank(imported[j].tagPath) &&
        imported[j].tagPath == LastTag(imported, id).value
    ensures LastKey(imported, id).Some? ==>
      exists j :: 0 <= j < |imported| && Identity(imported[j]) == id && !Blank(imported[j].deviceKey) &&
        imported[j].deviceKey == LastKey(imported, id).value
  {
    if imported != [] {
      LastTagFrom(imported[..|imported| - 1], id);
    }
  }

  // Merging the same import a second time reports no update exactly when the import names no two
  // tag paths, and no two device keys, for one identity.
  lemma SecondMergeUpdates(points: seq<PointConfig>, imported: seq<PointConfig>)
    ensures Updated(MergeAll(points, imported), imported) == 0 <==> Consistent(imported)
  {
    var once := MergeAll(points, imported);
    MergeAgain(points, imported);
    NoUpdatesExactly(once, imported);
    if Consistent(imported) {
      forall i | 0 <= i < |imported|
        ensures SaysNothingNew(once, imported[i])
      {
        ConsistentSaysNothingNew(points, imported, i);
      }
    } else {
      var i, j :| 0 <= i < |imported| && 0 <= j < |imported| && Identity(imported[i]) == Identity(imported[j]) &&
        !((!Blank(imported[i].tagPath) && !Blank(imported[j].tagPath) ==> imported[i].tagPath == imported[j].tagPath) &&
          (!Blank(imported[i].deviceKey) && !Blank(imported[j].deviceKey) ==> imported[i].deviceKey == imported[j].deviceKey));
      hide LastIndex, Identity, MergeAll, Blank;
      assert !(SaysNothingNew(once, imported[i]) && SaysNothingNew(once, imported[j]));
    }
  }

  lemma ConsistentSaysNothingNew(points: seq<PointConfig>, imported: seq<PointConfig>, i: nat)
    requires Consistent(imported) && i < |imported|
    ensures SaysNothingNew(MergeAll(points, imported), imported[i])
  {
    var id := Identity(imported[i]);
    assert Has(imported, id);
    MergedLabels(points, imported, id);
    LastTagNamed(imported, id, i);
    LastTagFrom(imported, id);
    hide LastIndex, MergeAll, Has, Identity, Blank;
  }

  // An import that names two tag paths for one identity: the second merge flips it there and back.
  lemma SecondMergeCanUpdate()
    ensures var a := PointConfig(true, "d", map[], "a", 60);
      var b := a.(tagPath := "b");
      Updated(MergeAll([], [a, b]), [a, b]) > 0
  {
    var a := PointConfig(true, "d", map[], "a", 60);
    var b := a.(tagPath := "b");
    var imported := [a, b];
    assert Text.Trim("a") == "a" && Text.Trim("b") == "b";
    assert Identity(imported[0]) == Identity(imported[1]) && imported[0].tagPath != imported[1].tagPath;
    assert !Consistent(imported);
    SecondMergeUpdates([], imported);
  }
}
