/**
 The MIB tree seen as a table from node paths to nodes, the variables it serves, and what
 GET and GETNEXT ought to answer. Handlers are finite, ordered lists of named values.
 */
module MibTable {
  import opened Oids
  import opened Asn1

  datatype Entry = Group(ids: seq<nat>) | Leaf(callback: int)

  type Table = map<Oid, Entry>

  datatype Binding = Binding(suffix: Oid, value: Value)

  type Handler = seq<Binding>

  /** The handler behind every callback reference. */
  type Lua = map<int, Handler>

  function Child(p: Oid, x: nat): Oid {
    p + [x]
  }

  function Parent(p: Oid): Oid
    requires p != []
  {
    p[..|p| - 1]
  }

  function Last(p: Oid): nat
    requires p != []
  {
    p[|p| - 1]
  }

  ghost predicate IdsSorted(ids: seq<nat>) {
    forall i, j :: 0 <= i < j < |ids| ==> ids[i] < ids[j]
  }

  /** A group lists its children in strictly increasing order; all of them are nodes. */
  ghost predicate NodeOk(t: Table, p: Oid)
    requires p in t
  {
    Fits32(p) &&
    match t[p]
    case Group(ids) =>
      && |p| < OID_MAX_LEN
      && IdsSorted(ids)
      && (forall i :: 0 <= i < |ids| ==> Child(p, ids[i]) in t)
    case Leaf(_) => 0 < |p| <= OID_MAX_LEN
  }

  /** Every node but the root is listed by its parent, which is a group. */
  ghost predicate LinkOk(t: Table, p: Oid)
    requires p in t
  {
    p != [] ==> Parent(p) in t && t[Parent(p)].Group? && Last(p) in t[Parent(p)].ids
  }

  ghost predicate WellFormed(t: Table) {
    && [] in t
    && (forall p {:trigger NodeOk(t, p)} :: p in t ==> NodeOk(t, p))
    && (forall p {:trigger LinkOk(t, p)} :: p in t ==> LinkOk(t, p))
  }

  ghost predicate HandlerOk(h: Handler) {
    && (forall i :: 0 <= i < |h| ==> h[i].suffix != [] && Fits32(h[i].suffix))
    && (forall i, j :: 0 <= i < j < |h| ==> Less(h[i].suffix, h[j].suffix))
  }

  /** Every registered callback has a handler whose variable names respect the length limit. */
  ghost predicate Served(t: Table, lua: Lua) {
    forall p :: p in t && t[p].Leaf? ==>
      && t[p].callback in lua
      && HandlerOk(lua[t[p].callback])
      && NamesFit(p, lua[t[p].callback])
  }

  ghost predicate NamesFit(p: Oid, h: Handler) {
    forall i :: 0 <= i < |h| ==> |p| + |h[i].suffix| <= OID_MAX_LEN
  }

  /** What the handler answers to GET. */
  function HandlerGet(h: Handler, suffix: Oid): Option<Value> {
    if h == [] then None
    else if h[0].suffix == suffix then Some(h[0].value)
    else HandlerGet(h[1..], suffix)
  }

  /** Position of the first binding after `suffix`; the length when there is none. */
  function HandlerNext(h: Handler, suffix: Oid): (n: nat)
    ensures n <= |h|
    ensures n < |h| ==> Less(suffix, h[n].suffix)
    ensures forall i :: 0 <= i < n ==> !Less(suffix, h[i].suffix)
  {
    if h == [] || Less(suffix, h[0].suffix) then 0
    else
      var n := HandlerNext(h[1..], suffix);
      assert forall i :: 0 < i < n + 1 ==> h[i] == h[1..][i - 1];
      n + 1
  }

  /** Depth of the deepest node on the way to `v`. */
  function Walk(t: Table, v: Oid, k: nat): (d: nat)
    requires k <= |v|
    ensures k <= d <= |v|
    ensures v[..k] in t ==> v[..d] in t
    ensures d < |v| ==> v[..d + 1] !in t
    decreases |v| - k
  {
    if k < |v| && v[..k + 1] in t then Walk(t, v, k + 1) else k
  }

  /** The variable with full name `v`, if any. */
  function Lookup(t: Table, lua: Lua, v: Oid): Option<Value> {
    var d := Walk(t, v, 0);
    if v[..d] in t && t[v[..d]].Leaf? && t[v[..d]].callback in lua
    then HandlerGet(lua[t[v[..d]].callback], v[d..])
    else None
  }

  predicate IsVar(t: Table, lua: Lua, v: Oid) {
    Lookup(t, lua, v).Some?
  }

  /** A variable under `view` that comes after `from`. */
  ghost predicate Wanted(t: Table, lua: Lua, view: Oid, from: Oid, w: Oid) {
    IsVar(t, lua, w) && view <= w && Less(from, w)
  }

  /** `r` is the least variable under `view` after `from`; None says there is none. */
  ghost predicate IsNext(t: Table, lua: Lua, view: Oid, from: Oid, r: Option<Oid>) {
    match r
    case Some(v) =>
      && Wanted(t, lua, view, from, v)
      && (forall w :: Wanted(t, lua, view, from, w) ==> Le(v, w))
    case None => forall w :: !Wanted(t, lua, view, from, w)
  }

  lemma NextIsUnique(t: Table, lua: Lua, view: Oid, from: Oid, r: Option<Oid>, s: Option<Oid>)
    requires IsNext(t, lua, view, from, r) && IsNext(t, lua, view, from, s)
    ensures r == s
  {
    if r.Some? && s.Some? {
      Trichotomy(r.value, s.value);
    }
  }

  lemma {:induction false} PrefixIsNode(t: Table, p: Oid, k: nat)
    requires WellFormed(t) && p in t && k <= |p|
    ensures p[..k] in t
    ensures k < |p| ==> t[p[..k]].Group? && p[k] in t[p[..k]].ids
    decreases |p|
  {
    if k < |p| {
      assert LinkOk(t, p);
      if k < |p| - 1 {
        PrefixIsNode(t, Parent(p), k);
        assert Parent(p)[..k] == p[..k];
      }
    } else {
      assert p[..k] == p;
    }
  }

  lemma {:induction false} WalkPasses(t: Table, v: Oid, k: nat, d: nat)
    requires k <= d <= |v|
    requires forall j :: k < j <= d ==> v[..j] in t
    ensures Walk(t, v, k) == Walk(t, v, d)
    decreases d - k
  {
    if k < d {
      WalkPasses(t, v, k + 1, d);
    }
  }

  lemma WalkReaches(t: Table, c: Oid, v: Oid)
    requires WellFormed(t) && c in t && c <= v
    ensures Walk(t, v, 0) == Walk(t, v, |c|) >= |c|
  {
    forall j | 0 < j <= |c|
      ensures v[..j] in t
    {
      PrefixIsNode(t, c, j);
      assert v[..j] == c[..j];
    }
    WalkPasses(t, v, 0, |c|);
  }

  /** Nothing hangs below an instance node, so the walk stops there. */
  lemma WalkStopsAtLeaf(t: Table, c: Oid, v: Oid)
    requires WellFormed(t) && c in t && t[c].Leaf? && c <= v
    ensures Walk(t, v, 0) == |c|
  {
    WalkReaches(t, c, v);
    if |c| < |v| {
      var q := v[..|c| + 1];
      assert Parent(q) == c;
      assert q in t ==> LinkOk(t, q);
    }
  }

  /** A variable below a group passes through one of its children. */
  lemma VarThroughGroup(t: Table, lua: Lua, c: Oid, w: Oid)
    requires WellFormed(t) && c in t && t[c].Group? && c <= w && IsVar(t, lua, w)
    ensures |c| < |w| && w[|c|] in t[c].ids && Child(c, w[|c|]) <= w && Child(c, w[|c|]) in t
  {
    WalkReaches(t, c, w);
    var d := Walk(t, w, 0);
    var p := w[..d];
    assert w[..|c|] == c;
    assert d > |c|;
    assert p[..|c|] == c && p[|c|] == w[|c|] && p[..|c| + 1] == Child(c, w[|c|]);
    PrefixIsNode(t, p, |c|);
    PrefixIsNode(t, p, |c| + 1);
  }

  lemma {:induction false} HandlerGetIndex(h: Handler, s: Oid)
    ensures HandlerGet(h, s).Some? ==>
      exists i :: 0 <= i < |h| && h[i].suffix == s && h[i].value == HandlerGet(h, s).value
  {
    if h != [] && h[0].suffix != s {
      HandlerGetIndex(h[1..], s);
      if HandlerGet(h, s).Some? {
        var i :| 0 <= i < |h[1..]| && h[1..][i].suffix == s && h[1..][i].value == HandlerGet(h[1..], s).value;
        assert h[i + 1] == h[1..][i];
      }
    }
  }

  lemma {:induction false} HandlerGetAt(h: Handler, i: nat)
    requires HandlerOk(h) && i < |h|
    ensures HandlerGet(h, h[i].suffix) == Some(h[i].value)
  {
    if i > 0 {
      Trichotomy(h[0].suffix, h[i].suffix);
      HandlerGetAt(h[1..], i - 1);
    }
  }

  /** The variables at an instance node are its path followed by the handler's suffixes. */
  lemma VarAtLeaf(t: Table, lua: Lua, c: Oid, w: Oid)
    requires WellFormed(t) && Served(t, lua) && c in t && t[c].Leaf? && c <= w
    ensures Lookup(t, lua, w) == HandlerGet(lua[t[c].callback], w[|c|..])
  {
    WalkStopsAtLeaf(t, c, w);
    assert w[..|c|] == c;
  }

  lemma LeafServes(t: Table, lua: Lua, c: Oid, i: nat)
    requires WellFormed(t) && Served(t, lua) && c in t && t[c].Leaf?
    requires i < |lua[t[c].callback]|
    ensures var b := lua[t[c].callback][i]; Lookup(t, lua, c + b.suffix) == Some(b.value)
  {
    var h := lua[t[c].callback];
    VarAtLeaf(t, lua, c, c + h[i].suffix);
    assert (c + h[i].suffix)[|c|..] == h[i].suffix;
    HandlerGetAt(h, i);
  }
}
