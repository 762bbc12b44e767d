// Lists told by position: which elements of a sequence a loop picks out, how often and in what order.
module Picking {

  ghost predicate Ascending(ks: seq<nat>) {
    forall a, b :: 0 <= a < b < |ks| ==> ks[a] < ks[b]
  }

  // The positions of the kept elements, each once, in order.
  ghost predicate Positions<T(!new)>(s: seq<T>, keep: T -> bool, ks: seq<nat>) {
    Ascending(ks) && forall k: nat :: k in ks <==> k < |s| && keep(s[k])
  }

  ghost predicate PicksAt<T(!new), U(!new)>(s: seq<T>, keep: T -> bool, f: T -> U, ks: seq<nat>, out: seq<U>) {
    && Positions(s, keep, ks)
    && |out| == |ks|
    && forall a :: 0 <= a < |ks| ==> ks[a] < |s| && out[a] == f(s[ks[a]])
  }

  // `out` is f of the kept elements, one for each, in their order.
  ghost predicate Picks<T(!new), U(!new)>(s: seq<T>, keep: T -> bool, f: T -> U, out: seq<U>) {
    exists ks :: PicksAt(s, keep, f, ks, out)
  }

  lemma PicksNone<T(!new), U(!new)>(keep: T -> bool, f: T -> U)
    ensures Picks([], keep, f, [])
  {
    var ks: seq<nat> := [];
    assert PicksAt([], keep, f, ks, []);
  }

  lemma AppendPosition(ks: seq<nat>, n: nat)
    requires Ascending(ks) && forall k: nat :: k in ks ==> k < n
    ensures Ascending(ks + [n])
  {
    forall a | 0 <= a < |ks|
      ensures ks[a] < n
    {
      assert ks[a] in ks;
    }
  }

  lemma PositionsOneMore<T(!new)>(front: seq<T>, last: T, keep: T -> bool, ks: seq<nat>)
    requires Positions(front, keep, ks)
    ensures Positions(front + [last], keep, if keep(last) then ks + [|front|] else ks)
  {
    var s := front + [last];
    assert forall k :: 0 <= k < |front| ==> s[k] == front[k];
    forall a | 0 <= a < |ks|
      ensures ks[a] < |front|
    {
      assert ks[a] in ks;
    }
    if keep(last) {
      forall k: nat
        ensures k in ks + [|front|] <==> k < |s| && keep(s[k])
      {
        assert k in ks + [|front|] <==> k in ks || k == |front|;
      }
    }
  }

  // One more element, picked or not.
  lemma PicksOneMore<T(!new), U(!new)>(front: seq<T>, last: T, keep: T -> bool, f: T -> U, out: seq<U>)
    requires Picks(front, keep, f, out)
    ensures Picks(front + [last], keep, f, out + if keep(last) then [f(last)] else [])
  {
    var ks :| PicksAt(front, keep, f, ks, out);
    PositionsOneMore(front, last, keep, ks);
    hide Positions;
    var s, n: nat := front + [last], |front|;
    if keep(last) {
      var more, list := ks + [n], out + [f(last)];
      forall a | 0 <= a < |more|
        ensures more[a] < |s| && list[a] == f(s[more[a]])
      {
        assert a < |ks| ==> more[a] == ks[a] && list[a] == out[a];
      }
      assert PicksAt(s, keep, f, more, list);
    } else {
      assert out + [] == out;
      forall a | 0 <= a < |ks|
        ensures ks[a] < |s| && out[a] == f(s[ks[a]])
      {
      }
      assert PicksAt(s, keep, f, ks, out);
    }
  }

  // Ascending positions with the same members are the same.
  lemma {:induction false} AscendingUnique(ks: seq<nat>, js: seq<nat>)
    requires Ascending(ks) && Ascending(js)
    requires forall k: nat :: k in ks <==> k in js
    ensures ks == js
  {
    HasMember(ks);
    HasMember(js);
    if ks != [] && js != [] {
      hide *;
      LastIsLargest(ks);
      LastIsLargest(js);
      var m: nat, n: nat := |ks| - 1, |js| - 1;
      assert ks[m] == js[n];
      forall k: nat
        ensures k in ks[..m] <==> k in js[..n]
      {
        FrontMember(ks, k);
        FrontMember(js, k);
      }
      AscendingUnique(ks[..m], js[..n]);
      assert ks == ks[..m] + [ks[m]] && js == js[..n] + [js[n]];
    }
  }

  lemma HasMember(ks: seq<nat>)
    ensures ks != [] ==> exists k: nat :: k in ks
  {
    if ks != [] {
      assert ks[0] in ks;
    }
  }

  lemma LastIsLargest(ks: seq<nat>)
    requires Ascending(ks) && ks != []
    ensures ks[|ks| - 1] in ks && forall k: nat :: k in ks ==> k <= ks[|ks| - 1]
    ensures Ascending(ks[..|ks| - 1])
  {
  }

  lemma FrontMember(ks: seq<nat>, k: nat)
    requires Ascending(ks) && ks != []
    ensures k in ks[..|ks| - 1] <==> k in ks && k != ks[|ks| - 1]
  {
    var n := |ks| - 1;
    assert ks == ks[..n] + [ks[n]];
    if k in ks[..n] {
      var a :| 0 <= a < n && ks[..n][a] == k;
      assert ks[a] == k;
    }
  }

  // There is only one list that picks.
  lemma PicksUnique<T(!new), U(!new)>(s: seq<T>, keep: T -> bool, f: T -> U, x: seq<U>, y: seq<U>)
    requires Picks(s, keep, f, x) && Picks(s, keep, f, y)
    ensures x == y
  {
    var ks :| PicksAt(s, keep, f, ks, x);
    var js :| PicksAt(s, keep, f, js, y);
    AscendingUnique(ks, js);
  }

  lemma PicksMembers<T(!new), U(!new)>(s: seq<T>, keep: T -> bool, f: T -> U, out: seq<U>, u: U)
    requires Picks(s, keep, f, out)
    ensures u in out <==> exists k :: 0 <= k < |s| && keep(s[k]) && f(s[k]) == u
  {
    var ks :| PicksAt(s, keep, f, ks, out);
    if u in out {
      var a :| 0 <= a < |out| && out[a] == u;
      assert ks[a] in ks;
    }
    if k :| 0 <= k < |s| && keep(s[k]) && f(s[k]) == u {
      var a :| 0 <= a < |ks| && ks[a] == k;
      assert out[a] == u;
    }
  }

  lemma PicksNothing<T(!new), U(!new)>(s: seq<T>, keep: T -> bool, f: T -> U, out: seq<U>)
    requires Picks(s, keep, f, out)
    ensures out == [] <==> forall x :: x in s ==> !keep(x)
  {
    var ks :| PicksAt(s, keep, f, ks, out);
    HasMember(ks);
    if k :| 0 <= k < |s| && keep(s[k]) {
      assert k in ks;
    }
  }

  // ---- Row by row ----

  ghost predicate Before(x: (nat, nat), y: (nat, nat)) {
    x.0 < y.0 || (x.0 == y.0 && x.1 < y.1)
  }

  // The wanted places of the first m rows, each once, row by row.
  ghost predicate Places(at: seq<(nat, nat)>, m: nat, wanted: (nat, nat) -> bool) {
    && (forall a, b :: 0 <= a < b < |at| ==> Before(at[a], at[b]))
    && (forall j: nat, k: nat :: (j, k) in at <==> j < m && wanted(j, k))
  }

  function Row(j: nat, ks: seq<nat>): (row: seq<(nat, nat)>)
    ensures |row| == |ks| && forall a :: 0 <= a < |ks| ==> row[a] == (j, ks[a])
  {
    seq(|ks|, a requires 0 <= a < |ks| => (j, ks[a]))
  }

  lemma PlacesNone(wanted: (nat, nat) -> bool)
    ensures Places([], 0, wanted)
  {
  }

  lemma PlacesRow(at: seq<(nat, nat)>, m: nat, wanted: (nat, nat) -> bool, ks: seq<nat>)
    requires Places(at, m, wanted)
    requires Ascending(ks) && forall k: nat :: k in ks <==> wanted(m, k)
    ensures Places(at + Row(m, ks), m + 1, wanted)
  {
    var row := Row(m, ks);
    var all := at + row;
    forall a, b | 0 <= a < b < |all|
      ensures Before(all[a], all[b])
    {
      if a < |at| {
        assert all[a] in at && (all[a].0, all[a].1) in at;
      }
    }
    forall j: nat, k: nat
      ensures (j, k) in all <==> j < m + 1 && wanted(j, k)
    {
      RowMembers(m, ks, j, k);
      assert (j, k) in all <==> (j, k) in at || (j, k) in row;
    }
  }

  lemma RowMembers(m: nat, ks: seq<nat>, j: nat, k: nat)
    ensures (j, k) in Row(m, ks) <==> j == m && k in ks
  {
    if j == m && k in ks {
      var a :| 0 <= a < |ks| && ks[a] == k;
      assert Row(m, ks)[a] == (j, k);
    }
  }
}
