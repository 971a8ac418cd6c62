/**
 What registering and unregistering do to the table of nodes: a graft of new groups ending in an
 instance, and the pruning of a whole subtree. The callbacks bound to OIDs change as in a map.
 */
module TableEdit {
  import opened Oids
  import opened MibTable

  /** Callbacks by the OID they were registered under. */
  ghost function Bindings(t: Table): map<Oid, int> {
    map p | p in t && t[p].Leaf? :: t[p].callback
  }

  function InsertAt(ids: seq<nat>, i: nat, x: nat): seq<nat>
    requires i <= |ids|
  {
    ids[..i] + [x] + ids[i..]
  }

  function RemoveAt(ids: seq<nat>, i: nat): seq<nat>
    requires i < |ids|
  {
    ids[..i] + ids[i + 1..]
  }

  /** How many sub-ids come before `x`. */
  function Rank(ids: seq<nat>, x: nat): (i: nat)
    ensures i <= |ids|
    ensures forall j :: 0 <= j < i ==> ids[j] < x
    ensures i < |ids| ==> x <= ids[i]
  {
    if ids == [] || x <= ids[0] then 0
    else
      var i := Rank(ids[1..], x);
      assert forall j :: 0 < j < i + 1 ==> ids[j] == ids[1..][j - 1];
      i + 1
  }

  lemma RankIs(ids: seq<nat>, x: nat, i: nat)
    requires IdsSorted(ids) && i <= |ids|
    requires forall j :: 0 <= j < i ==> ids[j] < x
    requires i < |ids| ==> x <= ids[i]
    ensures Rank(ids, x) == i
  {
  }

  /** Hang a node without children below group `p`. */
  function AddChild(t: Table, p: Oid, x: nat, e: Entry): Table
    requires p in t && t[p].Group?
  {
    t[p := Group(InsertAt(t[p].ids, Rank(t[p].ids, x), x))][Child(p, x) := e]
  }

  lemma InsertSorted(ids: seq<nat>, x: nat)
    requires IdsSorted(ids) && x !in ids
    ensures var r := InsertAt(ids, Rank(ids, x), x);
      IdsSorted(r) && x in r && forall y :: y in r <==> y == x || y in ids
  {
    var i := Rank(ids, x);
    var r := InsertAt(ids, i, x);
    assert r[i] == x;
    assert forall j :: 0 <= j < |r| ==> r[j] == if j < i then ids[j] else if j == i then x else ids[j - 1];
    assert IdsSorted(r);
    InsertMembers(ids, i, x);
  }

  lemma InsertMembers(ids: seq<nat>, i: nat, x: nat)
    requires i <= |ids|
    ensures forall y :: y in InsertAt(ids, i, x) <==> y == x || y in ids
  {
    assert ids == ids[..i] + ids[i..];
  }

  lemma AddChildOk(t: Table, p: Oid, x: nat, e: Entry)
    requires WellFormed(t) && p in t && t[p].Group? && x !in t[p].ids && x < ID_MODULUS
    requires e.Leaf? || (e == Group([]) && |p| + 1 < OID_MAX_LEN)
    ensures WellFormed(AddChild(t, p, x, e)) && Child(p, x) !in t
  {
    hide InsertAt, Rank;
    var t' := AddChild(t, p, x, e);
    var c := Child(p, x);
    assert Parent(c) == p && Last(c) == x;
    assert NodeOk(t, p);
    InsertSorted(t[p].ids, x);
    assert c in t ==> LinkOk(t, c);
    forall r | r in t'
      ensures NodeOk(t', r)
    {
      if r == p {
        forall i | 0 <= i < |t'[p].ids|
          ensures Child(p, t'[p].ids[i]) in t'
        {
          var y := t'[p].ids[i];
          assert y in t'[p].ids;
          if y != x {
            var j :| 0 <= j < |t[p].ids| && t[p].ids[j] == y;
          }
        }
      } else if r != c {
        assert NodeOk(t, r);
      }
    }
    forall r | r in t'
      ensures LinkOk(t', r)
    {
      if r != c {
        assert LinkOk(t, r);
      }
    }
  }

  /** A place where an instance can be registered: not taken, and not below another instance. */
  ghost predicate Free(t: Table, oid: Oid) {
    && oid != [] && oid !in t
    && forall k :: 0 <= k <= |oid| && oid[..k] in t ==> t[oid[..k]].Group?
  }

  /** Build the missing groups below depth `k`, then the instance. */
  ghost function Graft(t: Table, oid: Oid, k: nat, cb: int): Table
    requires k < |oid| && oid[..k] in t && t[oid[..k]].Group?
    decreases |oid| - k
  {
    if k + 1 == |oid| then AddChild(t, oid[..k], oid[k], Leaf(cb))
    else Graft(Descended(t, oid, k), oid, k + 1, cb)
  }

  ghost function Descended(t: Table, oid: Oid, k: nat): (r: Table)
    requires k < |oid| && oid[..k] in t && t[oid[..k]].Group?
    ensures oid[..k + 1] in r && r[oid[..k + 1]] == Group([])
  {
    assert oid[..k + 1] == Child(oid[..k], oid[k]);
    AddChild(t, oid[..k], oid[k], Group([]))
  }

  /** The table after registering `cb` under `oid`. */
  ghost function Registered(t: Table, oid: Oid, cb: int): Table
    requires Free(t, oid) && [] in t
  {
    assert oid[..0] == [];
    var d := Walk(t, oid, 0);
    assert oid[..|oid|] == oid;
    Graft(t, oid, d, cb)
  }

  lemma AddChildEffect(t: Table, p: Oid, x: nat, e: Entry)
    requires p in t && t[p].Group? && Child(p, x) !in t
    ensures var r := AddChild(t, p, x, e); var c := Child(p, x);
      && r.Keys == t.Keys + {c} && r[c] == e && (forall q :: q in t && q != p ==> r[q] == t[q])
      && Bindings(r) == if e.Leaf? then Bindings(t)[c := e.callback] else Bindings(t)
  {
  }

  lemma PathKeys(oid: Oid, k: nat)
    requires k < |oid|
    ensures (set j | k < j <= |oid| :: oid[..j]) == {oid[..k + 1]} + set j | k + 1 < j <= |oid| :: oid[..j]
  {
  }

  lemma {:induction false} GraftOk(t: Table, oid: Oid, k: nat, cb: int)
    requires WellFormed(t) && k < |oid| <= OID_MAX_LEN && Fits32(oid)
    requires oid[..k] in t && t[oid[..k]].Group? && oid[..k + 1] !in t
    ensures var r := Graft(t, oid, k, cb);
      && WellFormed(r)
      && Bindings(r) == Bindings(t)[oid := cb]
      && r.Keys == t.Keys + (set j | k < j <= |oid| :: oid[..j])
      && (forall p :: p in t && p != oid[..k] ==> r[p] == t[p])
      && oid in r
    decreases |oid| - k
  {
    var p, x := oid[..k], oid[k];
    assert oid[..k + 1] == Child(p, x);
    assert NodeOk(t, p);
    assert x !in t[p].ids;
    var e := if k + 1 == |oid| then Leaf(cb) else Group([]);
    var t1 := AddChild(t, p, x, e);
    AddChildOk(t, p, x, e);
    AddChildEffect(t, p, x, e);
    PathKeys(oid, k);
    assert oid[..|oid|] == oid;
    hide AddChild, Bindings;
    if k + 1 < |oid| {
      assert oid[..k + 2] !in t1 by {
        assert Parent(oid[..k + 2]) == oid[..k + 1];
        assert oid[..k + 2] in t1 ==> LinkOk(t1, oid[..k + 2]);
      }
      GraftOk(t1, oid, k + 1, cb);
    }
  }

  /** Registering is one update of the map of callbacks and creates no node off the registered path. */
  lemma RegisterRefinesMap(t: Table, oid: Oid, cb: int)
    requires WellFormed(t) && Free(t, oid) && |oid| <= OID_MAX_LEN && Fits32(oid)
    ensures var r := Registered(t, oid, cb);
      && WellFormed(r)
      && Bindings(r) == Bindings(t)[oid := cb]
      && r.Keys == t.Keys + (set j | 0 <= j <= |oid| :: oid[..j])
  {
    var d := Walk(t, oid, 0);
    assert oid[..0] == [] && oid[..|oid|] == oid;
    GraftOk(t, oid, d, cb);
    forall j | 0 <= j <= d
      ensures oid[..j] in t
    {
      PrefixIsNode(t, oid[..d], j);
      assert oid[..d][..j] == oid[..j];
    }
  }

  /** The table without the subtree at `q`. */
  ghost function Pruned(t: Table, q: Oid): Table
    requires q in t && q != [] && Parent(q) in t && t[Parent(q)].Group? && Last(q) in t[Parent(q)].ids
  {
    var p := Parent(q);
    map r | r in t && !(q <= r) :: if r == p then Group(RemoveAt(t[p].ids, Rank(t[p].ids, Last(q)))) else t[r]
  }

  lemma RemoveSorted(ids: seq<nat>, x: nat)
    requires IdsSorted(ids) && x in ids
    ensures var i := Rank(ids, x); i < |ids| && ids[i] == x
    ensures var r := RemoveAt(ids, Rank(ids, x)); IdsSorted(r) && forall y :: y in r <==> y in ids && y != x
  {
    var j :| 0 <= j < |ids| && ids[j] == x;
    RankIs(ids, x, j);
    RemoveMembers(ids, j);
  }

  lemma RemoveMembers(ids: seq<nat>, j: nat)
    requires IdsSorted(ids) && j < |ids|
    ensures IdsSorted(RemoveAt(ids, j)) && forall y :: y in RemoveAt(ids, j) <==> y in ids && y != ids[j]
  {
    var r := RemoveAt(ids, j);
    assert forall k :: 0 <= k < |r| ==> r[k] == if k < j then ids[k] else ids[k + 1];
    forall y | y in ids && y != ids[j]
      ensures y in r
    {
      var k :| 0 <= k < |ids| && ids[k] == y;
      assert r[if k < j then k else k - 1] == y;
    }
  }

  lemma PrunedNode(t: Table, q: Oid, r: Oid)
    requires WellFormed(t) && q in t && q != [] && LinkOk(t, q) && r in Pruned(t, q)
    ensures NodeOk(Pruned(t, q), r)
  {
    hide Rank, RemoveAt, Fits32;
    var p, x, t' := Parent(q), Last(q), Pruned(t, q);
    assert q == Child(p, x);
    assert NodeOk(t, p) && NodeOk(t, r);
    hide WellFormed;
    RemoveSorted(t[p].ids, x);
    if t[r].Group? {
      forall i | 0 <= i < |t'[r].ids|
        ensures Child(r, t'[r].ids[i]) in t'
      {
        var y := t'[r].ids[i];
        assert y in t[r].ids;
        var j :| 0 <= j < |t[r].ids| && t[r].ids[j] == y;
        assert Child(r, y) in t;
        assert r == Parent(Child(r, y)) && y == Last(Child(r, y));
        assert q <= Child(r, y) ==> q <= r || q == Child(r, y);
      }
    }
  }

  lemma PrunedLink(t: Table, q: Oid, r: Oid)
    requires WellFormed(t) && q in t && q != [] && LinkOk(t, q) && r in Pruned(t, q)
    ensures LinkOk(Pruned(t, q), r)
  {
    var p, x := Parent(q), Last(q);
    assert LinkOk(t, r) && NodeOk(t, p);
    RemoveSorted(t[p].ids, x);
    if r != [] {
      assert q <= Parent(r) ==> q <= r;
      assert r == Child(Parent(r), Last(r)) && q == Child(p, x);
    }
  }

  lemma PrunedOk(t: Table, q: Oid)
    requires WellFormed(t) && q in t && q != []
    ensures LinkOk(t, q) && WellFormed(Pruned(t, q))
    ensures Bindings(Pruned(t, q)) == map r | r in Bindings(t) && !(q <= r) :: Bindings(t)[r]
  {
    assert LinkOk(t, q);
    forall r | r in Pruned(t, q)
      ensures NodeOk(Pruned(t, q), r) && LinkOk(Pruned(t, q), r)
    {
      PrunedNode(t, q, r);
      PrunedLink(t, q, r);
    }
  }

  /** The node an unregistration removes: the one named, or the instance one sub-id above. */
  function Target(t: Table, oid: Oid): Option<Oid> {
    if oid in t then Some(oid)
    else if oid != [] && Parent(oid) in t && t[Parent(oid)].Leaf? then Some(Parent(oid))
    else None
  }

  ghost function Unregistered(t: Table, oid: Oid): Table
    requires WellFormed(t)
  {
    match Target(t, oid)
    case None => t
    case Some(q) => if q == [] then t else PrunedOk(t, q); Pruned(t, q)
  }

  /** Unregistering keeps exactly the callbacks outside the target's subtree; the root is never removed. */
  lemma UnregisterRefinesMap(t: Table, oid: Oid)
    requires WellFormed(t)
    ensures WellFormed(Unregistered(t, oid))
    ensures Target(t, oid) == None || Target(t, oid) == Some([]) ==> Unregistered(t, oid) == t
    ensures oid in t && oid != [] ==>
      Bindings(Unregistered(t, oid)) == map r | r in Bindings(t) && !(oid <= r) :: Bindings(t)[r]
    ensures oid != [] && oid !in t && Target(t, oid).Some? ==>
      Bindings(Unregistered(t, oid)) == map r | r in Bindings(t) && r != Parent(oid) :: Bindings(t)[r]
  {
    var target := Target(t, oid);
    assert NodeOk(t, if target.Some? then target.value else []);
    if target.Some? && target.value != [] {
      var q := target.value;
      PrunedOk(t, q);
      if oid !in t {
        forall r | r in t && q <= r
          ensures r == q
        {
          assert r[..|q|] == q;
          PrefixIsNode(t, r, |q|);
        }
      }
    }
  }

  /** One call to the registration interface. */
  datatype Edit = Add(oid: Oid, callback: int) | Remove(oid: Oid)

  ghost function Edited(t: Table, e: Edit): Table
    requires WellFormed(t)
  {
    match e
    case Add(oid, cb) => if |oid| <= OID_MAX_LEN && Free(t, oid) then Registered(t, oid, cb) else t
    case Remove(oid) => Unregistered(t, oid)
  }

  ghost predicate Fit(es: seq<Edit>) {
    forall i :: 0 <= i < |es| ==> Fits32(es[i].oid)
  }

  /** The table after a run of calls. */
  ghost function Run(t: Table, es: seq<Edit>): (r: Table)
    requires WellFormed(t) && Fit(es)
    ensures WellFormed(r)
    decreases |es|
  {
    if es == [] then t
    else
      EditOk(t, es[0]);
      Run(Edited(t, es[0]), es[1..])
  }

  ghost predicate GroupAt(t: Table, q: Oid) {
    q in t && t[q].Group?
  }

  ghost predicate BoundAt(t: Table, p: Oid, cb: int) {
    p in t && t[p] == Leaf(cb)
  }

  /** What the removal of `o` reaches: the nodes at and below it, and the instance one sub-id above. */
  predicate Hits(o: Oid, p: Oid) {
    o != [] && (o <= p || (p <= o && |o| == |p| + 1))
  }

  /** Exactly what one call does: which groups and which callbacks are there afterwards. */
  lemma EditOk(t: Table, e: Edit)
    requires WellFormed(t) && Fits32(e.oid)
    ensures WellFormed(Edited(t, e))
    ensures e.Add? ==> var ok := |e.oid| <= OID_MAX_LEN && Free(t, e.oid);
      forall q :: GroupAt(Edited(t, e), q) <==> GroupAt(t, q) || (ok && q < e.oid)
    ensures e.Add? ==> var ok := |e.oid| <= OID_MAX_LEN && Free(t, e.oid);
      forall p, cb :: BoundAt(Edited(t, e), p, cb) <==> BoundAt(t, p, cb) || (ok && e == Add(p, cb))
    ensures e.Remove? ==>
      forall q :: GroupAt(Edited(t, e), q) <==> GroupAt(t, q) && !(e.oid != [] && e.oid <= q)
    ensures e.Remove? ==>
      forall p, cb :: BoundAt(Edited(t, e), p, cb) <==> BoundAt(t, p, cb) && !Hits(e.oid, p)
  {
    match e
    case Add(oid, cb) =>
      if |oid| <= OID_MAX_LEN && Free(t, oid) {
        AddIs(t, oid, cb);
      }
    case Remove(oid) =>
      RemoveIs(t, oid);
  }

  lemma AddIs(t: Table, oid: Oid, cb: int)
    requires WellFormed(t) && Free(t, oid) && |oid| <= OID_MAX_LEN && Fits32(oid)
    ensures var r := Registered(t, oid, cb);
      && WellFormed(r)
      && (forall q :: GroupAt(r, q) <==> GroupAt(t, q) || q < oid)
      && forall p, c :: BoundAt(r, p, c) <==> BoundAt(t, p, c) || (p == oid && c == cb)
  {
    assert [] in t;
    hide Registered, WellFormed, Fits32;
    RegisterRefinesMap(t, oid, cb);
    var r := Registered(t, oid, cb);
    assert oid[..|oid|] == oid;
    forall q
      ensures q in r <==> q in t || q <= oid
    {
      assert q <= oid ==> q == oid[..|q|];
    }
    forall q
      ensures q in r && r[q].Leaf? <==> q in Bindings(r)
      ensures q in t && t[q].Leaf? <==> q in Bindings(t)
    {
    }
    forall q | q < oid && q in t
      ensures t[q].Group?
    {
      assert q == oid[..|q|];
    }
  }

  /** A node has nothing bound at it or above it but groups, so the target is the only thing reached. */
  lemma Reached(t: Table, o: Oid, p: Oid)
    requires WellFormed(t) && p in t
    ensures o <= p ==> o in t
    ensures t[p].Leaf? && p <= o && |o| == |p| + 1 ==> o !in t && Target(t, o) == Some(p)
    ensures Target(t, o).Some? && Target(t, o).value <= p && !(o <= p) ==> p == Target(t, o).value && t[p].Leaf?
  {
    if o <= p {
      assert p[..|o|] == o;
      PrefixIsNode(t, p, |o|);
    }
    if t[p].Leaf? && p <= o && |o| == |p| + 1 {
      assert Parent(o) == p;
      assert o in t ==> LinkOk(t, o);
    }
    var target := Target(t, o);
    if target.Some? && target.value <= p && !(o <= p) {
      assert p[..|target.value|] == target.value;
      PrefixIsNode(t, p, |target.value|);
    }
  }

  lemma RemoveIs(t: Table, oid: Oid)
    requires WellFormed(t)
    ensures var r := Unregistered(t, oid);
      && WellFormed(r)
      && (forall q :: GroupAt(r, q) <==> GroupAt(t, q) && !(oid != [] && oid <= q))
      && forall p, c :: BoundAt(r, p, c) <==> BoundAt(t, p, c) && !Hits(oid, p)
  {
    var target := Target(t, oid);
    assert NodeOk(t, []);
    forall p | p in t
      ensures oid <= p ==> oid in t
      ensures t[p].Leaf? && p <= oid && |oid| == |p| + 1 ==> oid !in t && target == Some(p)
      ensures target.Some? && target.value <= p && !(oid <= p) ==> p == target.value && t[p].Leaf?
    {
      Reached(t, oid, p);
    }
    if target.Some? && target.value != [] {
      PrunedOk(t, target.value);
    }
    hide WellFormed, RemoveAt, Rank;
  }

  /** Over any run, a callback is served only under an OID it was registered for. */
  lemma {:induction false} RunServesRegistered(t: Table, es: seq<Edit>, p: Oid)
    requires WellFormed(t) && Fit(es) && p in Bindings(Run(t, es))
    ensures var cb := Bindings(Run(t, es))[p]; (p in Bindings(t) && Bindings(t)[p] == cb) || Add(p, cb) in es
    decreases |es|
  {
    if es != [] {
      EditOk(t, es[0]);
      RunServesRegistered(Edited(t, es[0]), es[1..], p);
    }
  }
}
