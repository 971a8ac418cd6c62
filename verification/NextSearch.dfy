/**
 The order argument behind the GETNEXT traversal. The search keeps a position `c` in the tree;
 every variable it still wants lies at or after `c` (`Ahead`), or, once the subtree at `c` is
 used up, strictly past that subtree (`Behind`). Each step of the traversal has one lemma.
 */
module NextSearch {
  import opened Oids
  import opened Asn1
  import opened MibTable

  ghost predicate Ahead(t: Table, lua: Lua, view: Oid, from: Oid, c: Oid) {
    forall w :: Wanted(t, lua, view, from, w) ==> Le(c, w)
  }

  ghost predicate Behind(t: Table, lua: Lua, view: Oid, from: Oid, c: Oid) {
    forall w :: Wanted(t, lua, view, from, w) ==> Past(c, w)
  }

  /** No variable below `base` is comparable with the view. */
  ghost predicate Unrelated(t: Table, lua: Lua, view: Oid, base: Oid) {
    forall v :: IsVar(t, lua, v) && base <= v ==> !(view <= v) && !(v <= view)
  }

  /** Position `c` follows the bound `from`, or is still on the way to it. */
  ghost predicate Reach(from: Oid, c: Oid) {
    c <= from || Le(from, c)
  }

  /** A backlog entry left at group `p` after descending into child `x`. */
  ghost predicate EntryOk(t: Table, p: Oid, x: nat, next: int)
  {
    && p in t && t[p].Group?
    && (next == -1 ==> forall i :: 0 <= i < |t[p].ids| ==> t[p].ids[i] <= x)
    && (next != -1 ==> 0 < next < |t[p].ids| && t[p].ids[next - 1] == x)
  }

  /**
   Exactly what the search answers: the least variable after the request when the view covers it,
   the least one after the view's own OID when the request compares as smaller, nothing otherwise.
   */
  ghost predicate Answers(t: Table, lua: Lua, view: Oid, orig: Oid, r: Option<Oid>) {
    if view <= orig then IsNext(t, lua, view, orig, r)
    else if CmpSpec(orig, view) < 0 then IsNext(t, lua, view, view, r)
    else r == None
  }

  /**
   Where the search is right. If the comparison of the request with the view is sound, it goes wrong when the view's
   OID is itself a variable lying ahead. If it wraps around, the search takes the view for one ahead when it is
   passed, and for a passed one when it is ahead; then the answer is right only if there is nothing to answer.
   */
  ghost predicate SearchIsRight(t: Table, lua: Lua, view: Oid, orig: Oid) {
    if CmpIsSafe(orig, view) then !(IsVar(t, lua, view) && Less(orig, view))
    else forall w :: IsVar(t, lua, w) && view <= w ==> w == view && Less(view, orig)
  }

  /**
   For every request of 32-bit sub-ids, the answer is the successor RFC 3416 asks for exactly where the search is
   right.
   */
  lemma AnswerIsNext(t: Table, lua: Lua, view: Oid, orig: Oid, r: Option<Oid>)
    requires Fits32(view) && Fits32(orig) && |view| < ID_HALF && |orig| < ID_HALF
    requires Answers(t, lua, view, orig, r)
    ensures IsNext(t, lua, view, orig, r) <==> SearchIsRight(t, lua, view, orig)
  {
    hide IsVar;
    if CmpIsSafe(orig, view) {
      SafeAnswer(t, lua, view, orig, r);
    } else {
      WrappedAnswer(t, lua, view, orig, r);
    }
  }

  lemma SafeAnswer(t: Table, lua: Lua, view: Oid, orig: Oid, r: Option<Oid>)
    requires Fits32(view) && Fits32(orig) && |view| < ID_HALF && |orig| < ID_HALF && CmpIsSafe(orig, view)
    requires Answers(t, lua, view, orig, r)
    ensures IsNext(t, lua, view, orig, r) <==> !(IsVar(t, lua, view) && Less(orig, view))
  {
    CmpMeaning(orig, view);
    Trichotomy(orig, view);
    Trichotomy(view, view);
    if view <= orig {
      PrefixIsLe(view, orig);
    } else if Less(orig, view) {
      forall w | IsVar(t, lua, w) && view <= w
        ensures Less(orig, w) && (w == view || Less(view, w))
      {
        PrefixIsLe(view, w);
        LeTrans(orig, view, w);
      }
      if IsVar(t, lua, view) {
        assert Wanted(t, lua, view, orig, view);
        if r.Some? {
          assert Wanted(t, lua, view, view, r.value);
          Trichotomy(view, r.value);
        }
      } else {
        assert forall w :: Wanted(t, lua, view, orig, w) <==> Wanted(t, lua, view, view, w);
      }
    } else {
      forall w | IsVar(t, lua, w) && view <= w
        ensures !Less(orig, w)
      {
        PastSubtree(view, w, orig);
        Trichotomy(w, orig);
      }
    }
  }

  /** When the comparison wraps, neither OID is a prefix of the other and the sign is the opposite of the order. */
  lemma WrappedOrder(orig: Oid, view: Oid)
    requires Fits32(view) && Fits32(orig) && |view| < ID_HALF && |orig| < ID_HALF && !CmpIsSafe(orig, view)
    ensures !(view <= orig) && !(orig <= view)
    ensures CmpSpec(orig, view) < 0 <==> Less(view, orig)
    ensures Less(view, orig) || Less(orig, view)
  {
    CmpMeaning(orig, view);
    Trichotomy(orig, view);
  }

  lemma WrappedAnswer(t: Table, lua: Lua, view: Oid, orig: Oid, r: Option<Oid>)
    requires Fits32(view) && Fits32(orig) && |view| < ID_HALF && |orig| < ID_HALF && !CmpIsSafe(orig, view)
    requires Answers(t, lua, view, orig, r)
    ensures IsNext(t, lua, view, orig, r) <==>
      forall w :: IsVar(t, lua, w) && view <= w ==> w == view && Less(view, orig)
  {
    hide IsVar, CmpSpec, CmpIsSafe, Less;
    WrappedOrder(orig, view);
    Trichotomy(orig, view);
    Trichotomy(view, view);
    forall w | view <= w
      ensures w == view || Less(view, w)
      ensures Less(orig, w) <==> Less(orig, view)
    {
      PrefixIsLe(view, w);
      if Less(orig, view) {
        LeTrans(orig, view, w);
      } else {
        PastSubtree(view, w, orig);
        Trichotomy(w, orig);
      }
    }
    if Less(orig, view) {
      assert forall w :: IsVar(t, lua, w) && view <= w ==> Wanted(t, lua, view, orig, w);
    } else {
      assert r.Some? ==> Wanted(t, lua, view, view, r.value);
      assert r.None? ==> forall w :: IsVar(t, lua, w) && view <= w && w != view ==> Wanted(t, lua, view, view, w);
    }
  }

  /** One instance 1, and handlers with the single variable `s` in it; the first example serves 1.0. */
  const SINGLE: Table := map[[] := Group([1]), [1] := Leaf(7)]
  const SINGLE_LUA: Lua := OneName([0])

  function OneName(s: Oid): Lua {
    map[7 := [Binding(s, Integer(5))]]
  }

  lemma SingleOk(s: Oid)
    requires s != [] && Fits32(s) && |s| < OID_MAX_LEN
    ensures WellFormed(SINGLE) && Served(SINGLE, OneName(s))
  {
    var t := SINGLE;
    assert Child([], 1) == [1] && Parent([1]) == [];
    assert NodeOk(t, []) && NodeOk(t, [1]) && LinkOk(t, []) && LinkOk(t, [1]);
  }

  lemma OneVar(s: Oid, w: Oid)
    requires s != [] && Fits32(s) && |s| < OID_MAX_LEN && [1] <= w
    ensures IsVar(SINGLE, OneName(s), w) <==> w == [1] + s
    ensures Lookup(SINGLE, OneName(s), [1] + s) == Some(Integer(5))
  {
    SingleOk(s);
    var h := OneName(s)[7];
    VarAtLeaf(SINGLE, OneName(s), [1], w);
    VarAtLeaf(SINGLE, OneName(s), [1], [1] + s);
    hide WellFormed, Served, Lookup;
    HandlerGetIndex(h, w[1..]);
    HandlerGetAt(h, 0);
    assert w == [1] + w[1..] && ([1] + s)[1..] == s;
  }

  lemma SingleVar(w: Oid)
    requires [1] <= w
    ensures IsVar(SINGLE, SINGLE_LUA, w) <==> w == [1, 0]
  {
    OneVar([0], w);
    assert [1] + [0] == [1, 0];
  }

  /** A request far past the view is taken for one ahead of it: the search goes back and answers a smaller OID. */
  lemma WrappedRequest()
    ensures Answers(SINGLE, SINGLE_LUA, [1], [0x9000_0000], Some([1, 0]))
    ensures Less([1, 0], [0x9000_0000]) && IsNext(SINGLE, SINGLE_LUA, [1], [0x9000_0000], None)
  {
    hide WellFormed, Served, IsVar;
    var v, r := [1], [0x9000_0000];
    assert Lcp(r, v) == 0;
    LessAt([1, 0], r, 0);
    forall w | v <= w
      ensures IsVar(SINGLE, SINGLE_LUA, w) <==> w == [1, 0]
      ensures !Less(r, w)
    {
      SingleVar(w);
      LessAt(w, r, 0);
      Trichotomy(w, r);
    }
    LessAt(v, [1, 0], 1);
  }

  /** A view that is a variable's full name: a request before it should find that variable, and finds nothing. */
  lemma ViewIsVariable()
    ensures WellFormed(SINGLE) && Served(SINGLE, SINGLE_LUA)
    ensures Answers(SINGLE, SINGLE_LUA, [1, 0], [0], None)
    ensures IsNext(SINGLE, SINGLE_LUA, [1, 0], [0], Some([1, 0]))
  {
    SingleOk([0]);
    hide WellFormed, Served, IsVar, CmpSpec;
    var v, r := [1, 0], [0];
    LessAt(r, v, 0);
    CmpMeaning(r, v);
    Trichotomy(v, v);
    forall w | v <= w
      ensures IsVar(SINGLE, SINGLE_LUA, w) <==> w == v
    {
      assert [1] <= w by {
        assert w[..2] == v;
      }
      SingleVar(w);
    }
  }

  lemma SplitBelow(t: Table, lua: Lua, p: Oid, w: Oid)
    requires WellFormed(t) && p in t && t[p].Group? && IsVar(t, lua, w) && Le(p, w)
    ensures Past(p, w) || (|p| < |w| && w[|p|] in t[p].ids && Child(p, w[|p|]) <= w)
  {
    if p <= w {
      VarThroughGroup(t, lua, p, w);
    }
  }

  lemma PastChild(p: Oid, x: nat, w: Oid)
    requires Past(p, w)
    ensures Past(Child(p, x), w)
  {
    PastSubtree(p, Child(p, x), w);
    assert Child(p, x) <= w ==> p <= w;
  }

  lemma ChildLe(p: Oid, x: nat, y: nat, w: Oid)
    requires x <= y && Child(p, y) <= w
    ensures Le(Child(p, x), w)
  {
    if x < y {
      SiblingLess(p, x, y, w);
    } else {
      PrefixIsLe(Child(p, x), w);
    }
  }

  lemma DescendFirst(t: Table, lua: Lua, view: Oid, from: Oid, c: Oid)
    requires WellFormed(t) && c in t && t[c].Group? && |t[c].ids| > 0
    requires Ahead(t, lua, view, from, c)
    ensures Ahead(t, lua, view, from, Child(c, t[c].ids[0]))
  {
    var ids := t[c].ids;
    assert NodeOk(t, c);
    forall w | Wanted(t, lua, view, from, w)
      ensures Le(Child(c, ids[0]), w)
    {
      SplitBelow(t, lua, c, w);
      if Past(c, w) {
        PastChild(c, ids[0], w);
      } else {
        ChildLe(c, ids[0], w[|c|], w);
      }
    }
  }

  lemma EmptyGroup(t: Table, lua: Lua, view: Oid, from: Oid, c: Oid, x: nat)
    requires WellFormed(t) && c in t && t[c].Group? && t[c].ids == []
    requires Ahead(t, lua, view, from, c)
    ensures Behind(t, lua, view, from, Child(c, x))
  {
    forall w | Wanted(t, lua, view, from, w)
      ensures Past(Child(c, x), w)
    {
      SplitBelow(t, lua, c, w);
      PastChild(c, x, w);
    }
  }

  /** What is past one child is at the next child or past the whole group. */
  lemma AfterChild(t: Table, lua: Lua, p: Oid, x: nat, w: Oid)
    requires WellFormed(t) && p in t && t[p].Group? && IsVar(t, lua, w)
    requires Past(Child(p, x), w)
    ensures Past(p, w) || (|p| < |w| && w[|p|] in t[p].ids && w[|p|] > x && Child(p, w[|p|]) <= w)
  {
    PrefixIsLe(p, Child(p, x));
    LeTrans(p, Child(p, x), w);
    SplitBelow(t, lua, p, w);
    if !Past(p, w) {
      var y := w[|p|];
      if y < x {
        SiblingLess(p, y, x, Child(p, x));
        PastSubtree(Child(p, y), w, Child(p, x));
        Trichotomy(w, Child(p, x));
      }
    }
  }

  lemma PopNext(t: Table, lua: Lua, view: Oid, from: Oid, p: Oid, n: nat)
    requires WellFormed(t) && p in t && t[p].Group? && 0 < n < |t[p].ids|
    requires Behind(t, lua, view, from, Child(p, t[p].ids[n - 1]))
    ensures Ahead(t, lua, view, from, Child(p, t[p].ids[n]))
  {
    var ids := t[p].ids;
    assert NodeOk(t, p);
    forall w | Wanted(t, lua, view, from, w)
      ensures Le(Child(p, ids[n]), w)
    {
      AfterChild(t, lua, p, ids[n - 1], w);
      if Past(p, w) {
        PastChild(p, ids[n], w);
      } else {
        ChildLe(p, ids[n], w[|p|], w);
      }
    }
  }

  lemma PopLast(t: Table, lua: Lua, view: Oid, from: Oid, p: Oid, x: nat)
    requires WellFormed(t) && EntryOk(t, p, x, -1)
    requires Behind(t, lua, view, from, Child(p, x))
    ensures Behind(t, lua, view, from, p)
  {
    forall w | Wanted(t, lua, view, from, w)
      ensures Past(p, w)
    {
      AfterChild(t, lua, p, x, w);
    }
  }

  /** Below a prefix of the bound only sub-ids from the bound's own one on are wanted. */
  lemma BoundBelow(from: Oid, k: nat, w: Oid)
    requires k < |from| && Less(from, w)
    ensures Le(from[..k + 1], w)
    ensures Past(from[..k], w) || (k < |w| && from[..k] <= w && w[k] >= from[k])
  {
    PrefixIsLe(from[..k + 1], from);
    LeTrans(from[..k + 1], from, w);
    PrefixIsLe(from[..k], from);
    LeTrans(from[..k], from, w);
    if from[..k] <= w {
      assert from[..k] == w[..k];
      var p := from[..k];
      assert |w| == k ==> w == p;
      Trichotomy(w, from);
      PrefixIsLe(p, from);
      if k < |w| && w[k] < from[k] {
        LessAt(w, from, k);
      }
    }
  }

  /** Matching search: the sub-id is absent and `i` children precede it. */
  lemma SkipTo(t: Table, lua: Lua, view: Oid, from: Oid, k: nat, i: nat)
    requires WellFormed(t) && k < |from| && from[..k] in t && t[from[..k]].Group?
    requires i <= |t[from[..k]].ids|
    requires forall j :: 0 <= j < i ==> t[from[..k]].ids[j] < from[k]
    requires from[k] !in t[from[..k]].ids
    ensures i < |t[from[..k]].ids| ==> Ahead(t, lua, view, from, Child(from[..k], t[from[..k]].ids[i]))
    ensures i == |t[from[..k]].ids| ==> Behind(t, lua, view, from, from[..k])
  {
    var c := from[..k];
    var ids := t[c].ids;
    assert NodeOk(t, c);
    forall w | Wanted(t, lua, view, from, w)
      ensures i < |ids| ==> Le(Child(c, ids[i]), w)
      ensures i == |ids| ==> Past(c, w)
    {
      BoundBelow(from, k, w);
      if Past(c, w) {
        if i < |ids| {
          PastChild(c, ids[i], w);
        }
      } else {
        VarThroughGroup(t, lua, c, w);
        assert exists j :: i <= j < |ids| && ids[j] == w[k];
        if i < |ids| {
          ChildLe(c, ids[i], w[k], w);
        }
      }
    }
  }

  lemma FollowBound(t: Table, lua: Lua, view: Oid, from: Oid, k: nat)
    requires k < |from|
    ensures Ahead(t, lua, view, from, from[..k + 1])
  {
    forall w | Wanted(t, lua, view, from, w)
      ensures Le(from[..k + 1], w)
    {
      BoundBelow(from, k, w);
    }
  }

  lemma AheadOfBound(t: Table, lua: Lua, view: Oid, from: Oid, c: Oid)
    requires Le(c, from)
    ensures Ahead(t, lua, view, from, c)
  {
    forall w | Wanted(t, lua, view, from, w)
      ensures Le(c, w)
    {
      LeTrans(c, from, w);
    }
  }

  /** Once past or on the way to the bound at child `x`, every later sibling is past it. */
  lemma ReachSibling(from: Oid, p: Oid, x: nat, y: nat)
    requires Reach(from, Child(p, x)) && x < y
    ensures Less(from, Child(p, y))
  {
    SiblingLess(p, x, y, Child(p, y));
    if Child(p, x) <= from {
      PastSubtree(Child(p, x), from, Child(p, y));
    } else {
      LeTrans(from, Child(p, x), Child(p, y));
    }
  }

  lemma ReachPrefix(from: Oid, c: Oid, k: nat)
    requires Reach(from, c) && k <= |c|
    ensures Reach(from, c[..k])
  {
    var p := c[..k];
    if c <= from {
      assert p == from[..k];
    } else {
      Trichotomy(p, from);
      if Less(p, from) {
        Between(p, from, c);
      }
    }
  }

  /** The view's node is missing below group `c`, so nothing there is comparable with the view. */
  lemma MissingView(t: Table, lua: Lua, view: Oid, d: nat)
    requires WellFormed(t) && d < |view| && view[..d] in t && t[view[..d]].Group? && view[..d + 1] !in t
    ensures Unrelated(t, lua, view, view[..d])
  {
    var c := view[..d];
    assert NodeOk(t, c);
    assert view[..d + 1] == Child(c, view[d]);
    forall v | IsVar(t, lua, v) && c <= v
      ensures !(view <= v) && !(v <= view)
    {
      VarThroughGroup(t, lua, c, v);
      assert v[d] != view[d];
    }
  }

  /** The suffix handed to the handler: nothing when any name at `c` will do, else the rest of the bound. */
  ghost predicate RequestOk(t: Table, lua: Lua, view: Oid, from: Oid, base: Oid, c: Oid, rest: Oid) {
    (rest == [] && (Le(from, c) || Unrelated(t, lua, view, base))) || c + rest == from
  }

  lemma ConcatLess(c: Oid, r: Oid, s: Oid)
    ensures Less(c + r, c + s) <==> Less(r, s)
  {
    var k := Lcp(r, s);
    assert (c + r)[..|c| + k] == c + r[..k] && (c + s)[..|c| + k] == c + s[..k];
    if Less(r, s) {
      LessAt(c + r, c + s, |c| + k);
    } else {
      Trichotomy(r, s);
      if r != s {
        LessAt(c + s, c + r, |c| + k);
      }
      Trichotomy(c + r, c + s);
    }
  }

  /** A wanted variable at an instance node is one the handler has not yet passed. */
  lemma WantedAtLeaf(t: Table, lua: Lua, view: Oid, from: Oid, base: Oid, c: Oid, rest: Oid, w: Oid)
    requires WellFormed(t) && Served(t, lua) && c in t && t[c].Leaf?
    requires RequestOk(t, lua, view, from, base, c, rest)
    requires Wanted(t, lua, view, from, w) && Le(c, w)
    ensures var h := lua[t[c].callback]; var n := HandlerNext(h, rest);
      Past(c, w) || (n < |h| && c <= w && Le(c + h[n].suffix, w))
  {
    hide WellFormed, Less, HandlerGet, HandlerNext, Fits32;
    var h := lua[t[c].callback];
    var n := HandlerNext(h, rest);
    if c <= w {
      VarAtLeaf(t, lua, c, w);
      var s := w[|c|..];
      assert w == c + s;
      HandlerGetIndex(h, s);
      var i :| 0 <= i < |h| && h[i].suffix == s;
      if rest == [] {
        PrefixIsLe(rest, s);
      } else {
        ConcatLess(c, rest, s);
      }
      assert n <= i;
      if n < i {
        ConcatLess(c, h[n].suffix, s);
      }
    }
  }

  lemma LeafExhausted(t: Table, lua: Lua, view: Oid, from: Oid, base: Oid, c: Oid, rest: Oid)
    requires WellFormed(t) && Served(t, lua) && c in t && t[c].Leaf?
    requires RequestOk(t, lua, view, from, base, c, rest)
    requires Ahead(t, lua, view, from, c)
    requires HandlerNext(lua[t[c].callback], rest) == |lua[t[c].callback]|
    ensures Behind(t, lua, view, from, c)
  {
    forall w | Wanted(t, lua, view, from, w)
      ensures Past(c, w)
    {
      WantedAtLeaf(t, lua, view, from, base, c, rest, w);
    }
  }

  /** What the handler offers is either the answer, or proof that this subtree has none. */
  lemma LeafOffers(t: Table, lua: Lua, view: Oid, from: Oid, base: Oid, c: Oid, rest: Oid)
    requires WellFormed(t) && Served(t, lua) && c in t && t[c].Leaf? && base <= c && base <= view <= from
    requires RequestOk(t, lua, view, from, base, c, rest)
    requires Ahead(t, lua, view, from, c)
    requires HandlerNext(lua[t[c].callback], rest) < |lua[t[c].callback]|
    ensures var h := lua[t[c].callback]; var v := c + h[HandlerNext(h, rest)].suffix;
      if view <= v || v <= view then IsNext(t, lua, view, from, Some(v)) else Behind(t, lua, view, from, c)
  {
    var h := lua[t[c].callback];
    var n := HandlerNext(h, rest);
    var v := c + h[n].suffix;
    LeafServes(t, lua, c, n);
    assert base <= v;
    if !Unrelated(t, lua, view, base) || c + rest == from {
      assert Less(from, v) by {
        if rest == [] && Le(from, c) {
          PrefixIsLe(c, v);
          LeTrans(from, c, v);
        } else {
          ConcatLess(c, rest, h[n].suffix);
        }
      }
      PrefixIsLe(view, from);
      LeTrans(view, from, v);
      if v <= view {
        PrefixIsLe(v, view);
        Trichotomy(view, v);
      }
      if view <= v {
        forall w | Wanted(t, lua, view, from, w)
          ensures Le(v, w)
        {
          WantedAtLeaf(t, lua, view, from, base, c, rest, w);
          if Past(c, w) {
            PastSubtree(c, v, w);
          }
        }
      } else {
        forall w | Wanted(t, lua, view, from, w)
          ensures Past(c, w)
        {
          WantedAtLeaf(t, lua, view, from, base, c, rest, w);
          PastSubtree(view, w, v);
          Trichotomy(v, w);
        }
      }
    } else {
      assert IsVar(t, lua, v);
      assert forall w :: Wanted(t, lua, view, from, w) ==> base <= w;
    }
  }

  /**
   One GETNEXT search: the tree and its handlers, the view, the bound the answer must exceed and
   the node the traversal starts from. A search outside the reach of the view is not `live`.
   */
  datatype Quest = Quest(t: Table, lua: Lua, view: Oid, from: Oid, base: Oid, live: bool)
  {
    ghost predicate Ok() {
      WellFormed(t) && Served(t, lua) && base <= view <= from
    }

    /** Nodes not yet entered include every node after position `c`. */
    ghost predicate Todo(todo: set<Oid>, c: Oid, below: bool) {
      && todo <= t.Keys
      && forall p :: p in t && (if below then Less(c, p) else Past(c, p)) ==> p in todo
    }

    /** Standing at node `c`, with its subtree still to search. */
    ghost predicate OnSpot(todo: set<Oid>, c: Oid) {
      (live ==> Ahead(t, lua, view, from, c)) && Todo(todo, c, true)
    }

    /** The subtree at `c` is used up. */
    ghost predicate Spent(todo: set<Oid>, c: Oid) {
      (live ==> Behind(t, lua, view, from, c)) && Todo(todo, c, false)
    }

    /** The requested sub-ids no longer matter at `c`. */
    ghost predicate Clear(c: Oid) {
      || Le(from, c)
      || Unrelated(t, lua, view, base)
      || (&& c in t && t[c].Group? && t[c].ids != [] && c < from
          && forall i :: 0 <= i < |t[c].ids| ==> from[|c|] < t[c].ids[i])
    }

    ghost predicate Near(c: Oid) {
      Reach(from, c) || Unrelated(t, lua, view, base)
    }

    /** Any node on the way to the bound is a place to start from. */
    lemma Begin()
      requires Ok()
      ensures OnSpot(t.Keys - {base}, base) && Near(base)
      ensures base == [] && !live ==> Spent(t.Keys - {base}, base)
    {
      assert base <= from;
      PrefixIsLe(base, from);
      AheadOfBound(t, lua, view, from, base);
      Trichotomy(base, base);
    }

    /** Starting without regard to the request is right at the bound itself, or where the view's node is missing. */
    lemma BeginClear()
      requires Ok() && base in t && (base == from || (base < view && t[base].Group? && view[..|base| + 1] !in t))
      ensures Clear(base)
    {
      if base != from {
        assert view[..|base|] == base;
        MissingView(t, lua, view, |base|);
      }
    }

    lemma Enter(todo: set<Oid>, c: Oid, ch: Oid)
      requires Todo(todo, c, true) && ch in t && Less(c, ch)
      ensures ch in todo && Todo(todo - {ch}, ch, true)
    {
      forall p | p in t && Less(ch, p)
        ensures p in todo - {ch}
      {
        LessTrans(c, ch, p);
        Trichotomy(ch, p);
      }
    }

    lemma StepFirst(todo: set<Oid>, c: Oid)
      requires Ok() && OnSpot(todo, c) && Clear(c) && c in t && t[c].Group? && t[c].ids != []
      ensures var ch := Child(c, t[c].ids[0]); ch in todo && OnSpot(todo - {ch}, ch) && Clear(ch) && Near(ch)
    {
      var ch := Child(c, t[c].ids[0]);
      assert NodeOk(t, c);
      PrefixIsLe(c, ch);
      Enter(todo, c, ch);
      if live {
        DescendFirst(t, lua, view, from, c);
      }
      if Le(from, c) {
        LeTrans(from, c, ch);
      } else if !Unrelated(t, lua, view, base) {
        LessAt(from, ch, |c|);
      }
    }

    lemma StepEmpty(todo: set<Oid>, c: Oid)
      requires Ok() && OnSpot(todo, c) && Clear(c) && c in t && t[c].Group? && t[c].ids == []
      ensures Spent(todo, Child(c, 0)) && Near(Child(c, 0))
    {
      var ch := Child(c, 0);
      PrefixIsLe(c, ch);
      if live {
        EmptyGroup(t, lua, view, from, c, 0);
      }
      if Le(from, c) {
        LeTrans(from, c, ch);
      }
      forall p | p in t && Past(ch, p)
        ensures p in todo
      {
        LessTrans(c, ch, p);
      }
    }

    lemma StepPopNext(todo: set<Oid>, p: Oid, n: nat)
      requires Ok() && p in t && t[p].Group? && 0 < n < |t[p].ids|
      requires Spent(todo, Child(p, t[p].ids[n - 1])) && Near(Child(p, t[p].ids[n - 1]))
      ensures var ch := Child(p, t[p].ids[n]); ch in todo && OnSpot(todo - {ch}, ch) && Clear(ch) && Near(ch)
      ensures Near(p)
    {
      var x, y := t[p].ids[n - 1], t[p].ids[n];
      var c, ch := Child(p, x), Child(p, y);
      assert NodeOk(t, p);
      SiblingLess(p, x, y, ch);
      forall r | r in t && Less(ch, r)
        ensures r in todo - {ch}
      {
        LessTrans(c, ch, r);
        Trichotomy(ch, r);
        if c <= r {
          PastSubtree(c, r, ch);
        }
      }
      if live {
        PopNext(t, lua, view, from, p, n);
      }
      if Reach(from, c) {
        ReachSibling(from, p, x, y);
        ReachPrefix(from, c, |p|);
        assert c[..|p|] == p;
      }
    }

    lemma StepPopLast(todo: set<Oid>, p: Oid, x: nat)
      requires Ok() && EntryOk(t, p, x, -1)
      requires Spent(todo, Child(p, x)) && Near(Child(p, x))
      ensures Spent(todo, p) && Near(p)
    {
      if live {
        PopLast(t, lua, view, from, p, x);
      }
      forall r | r in t && Past(p, r)
        ensures r in todo
      {
        PastChild(p, x, r);
      }
      if Reach(from, Child(p, x)) {
        ReachPrefix(from, Child(p, x), |p|);
        assert Child(p, x)[..|p|] == p;
      }
    }

    /** The requested sub-id is present: go on matching. */
    lemma StepMatch(todo: set<Oid>, k: nat)
      requires Ok() && k < |from| && OnSpot(todo, from[..k]) && from[..k] in t && t[from[..k]].Group?
      requires from[k] in t[from[..k]].ids
      ensures var ch := Child(from[..k], from[k]);
        && ch == from[..k + 1] && ch in todo && OnSpot(todo - {ch}, ch)
        && Near(ch)
    {
      var c, ch := from[..k], from[..k + 1];
      assert NodeOk(t, c);
      assert ch == Child(c, from[k]);
      PrefixIsLe(c, ch);
      Enter(todo, c, ch);
      FollowBound(t, lua, view, from, k);
    }

    /** The requested sub-id is absent: take the next larger child, or leave the group. */
    lemma StepSkip(todo: set<Oid>, k: nat, i: nat)
      requires Ok() && k < |from| && OnSpot(todo, from[..k]) && from[..k] in t && t[from[..k]].Group?
      requires i <= |t[from[..k]].ids|
      requires forall j :: 0 <= j < |t[from[..k]].ids| ==>
        if j < i then t[from[..k]].ids[j] < from[k] else from[k] < t[from[..k]].ids[j]
      ensures i == |t[from[..k]].ids| ==> Spent(todo, from[..k]) && Near(from[..k])
      ensures i < |t[from[..k]].ids| ==>
        var ch := Child(from[..k], t[from[..k]].ids[i]); ch in todo && OnSpot(todo - {ch}, ch) && Clear(ch) && Near(ch)
    {
      var c := from[..k];
      var ids := t[c].ids;
      assert NodeOk(t, c);
      SkipTo(t, lua, view, from, k, i);
      if i < |ids| {
        var ch := Child(c, ids[i]);
        PrefixIsLe(c, ch);
        Enter(todo, c, ch);
        LessAt(from, ch, k);
      }
    }

    /** At an instance node the handler's offer settles the search or uses the node up. */
    lemma StepLeaf(todo: set<Oid>, c: Oid, rest: Oid)
      requires Ok() && OnSpot(todo, c) && c in t && t[c].Leaf? && base <= c
      requires (rest == [] && Clear(c)) || c + rest == from
      ensures var h := lua[t[c].callback]; var n := HandlerNext(h, rest);
        if n == |h| then Spent(todo, c)
        else var v := c + h[n].suffix;
          && Lookup(t, lua, v) == Some(h[n].value)
          && (if view <= v || v <= view then live ==> IsNext(t, lua, view, from, Some(v)) else Spent(todo, c))
    {
      var h := lua[t[c].callback];
      var n := HandlerNext(h, rest);
      if n < |h| {
        LeafServes(t, lua, c, n);
      }
      if live {
        if n == |h| {
          LeafExhausted(t, lua, view, from, base, c, rest);
        } else {
          LeafOffers(t, lua, view, from, base, c, rest);
        }
      }
    }

    lemma StepEnd(todo: set<Oid>)
      requires Ok() && live && Spent(todo, base)
      ensures IsNext(t, lua, view, from, None)
    {
    }
  }
}
