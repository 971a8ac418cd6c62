/** The GETNEXT traversal of the MIB tree. */
module TreeSearch {
  import opened Oids
  import opened MibTable
  import opened NextSearch
  import opened MibTree

  /** Where a GETNEXT search starts: the deepest node towards the view, the OID buffer and the mode. */
  method StartNext(tree: Tree, view: Oid, orig: Oid, lua: Lua, buf: array<nat>)
    returns (node: Node?, k: nat, idLen: int, immediate: bool, ghost q: Quest)
    requires tree.Valid() && Served(tree.table, lua)
    requires Fits32(view) && Fits32(orig) && |view| <= VALUE_MAX_LEN && |orig| <= VALUE_MAX_LEN
    requires buf.Length == VALUE_MAX_LEN && tree.Apart(buf)
    modifies buf
    ensures tree.Valid() && tree.Apart(buf)
    ensures var from := if view <= orig then orig else view;
      q == Quest(tree.table, lua, view, from, q.base, view <= orig || CmpSpec(orig, view) < 0)
    ensures k <= |view| && q.Ok() && q.base == buf[..k]
    ensures !q.live ==> node == null && k == 0
    ensures q.live ==> q.base in tree.at && node == tree.at[q.base] && k <= OID_MAX_LEN
    ensures q.live && immediate ==> q.Clear(q.base)
    ensures q.live && !immediate ==> k <= |q.from| && buf[..|q.from|] == q.from && idLen == |q.from| - k
    ensures q.live && !immediate && node.isGroup ==> k < |q.from|
  {
    hide Tree.Valid, Quest.Clear, Quest.Ok, Served, CmpSpec, Fits32, Tree.Apart;
    immediate := false;
    idLen := 0;
    var cover := OidCover(view, orig);
    var ahead := OidCmp(orig, view);
    if cover > 0 {
      node, k, q := StartFrom(tree, view, orig, lua, buf);
      idLen := |orig| - k;
      immediate := !(|orig| > k);
    } else if ahead < 0 {
      node, k, q := StartFrom(tree, view, view, lua, buf);
      idLen := |view| - k;
      immediate := node.isGroup;
    } else {
      node, k := null, 0;
      q := Quest(tree.table, lua, view, view, [], false);
      StartNowhere(tree, q);
    }
    if q.live && immediate {
      q.BeginClear();
    }
  }

  /** Look the view up in the tree, and put the OID the search starts from into the buffer. */
  method StartFrom(tree: Tree, view: Oid, from: Oid, lua: Lua, buf: array<nat>)
    returns (node: Node, k: nat, ghost q: Quest)
    requires tree.Valid() && Served(tree.table, lua) && view <= from
    requires Fits32(view) && |view| <= VALUE_MAX_LEN && |from| <= VALUE_MAX_LEN
    requires buf.Length == VALUE_MAX_LEN && tree.Apart(buf)
    modifies buf
    ensures tree.Valid() && tree.Apart(buf)
    ensures k <= |view| && k <= OID_MAX_LEN && q == Quest(tree.table, lua, view, from, view[..k], true) && q.Ok()
    ensures q.base == buf[..k] && buf[..|from|] == from
    ensures q.base in tree.at && node == tree.at[q.base] && q.base in tree.table
    ensures node.isGroup <==> tree.table[q.base].Group?
    ensures node.isGroup && k < |view| ==> view[..k + 1] !in tree.table
  {
    hide Tree.Valid, Lookup, IsVar, Served, WellFormed, CmpSpec, Node.Holds, Fits32;
    var r, calls;
    node, k, r, calls := FindView(tree, view, lua);
    WriteOid(buf, 0, from);
    q := Quest(tree.table, lua, view, from, view[..k], true);
    assert from[..k] == view[..k];
    assert buf[..k] == buf[..|from|][..k];
    tree.NodeAt([]);
  }

  /** The deepest node on the way to the view. */
  method FindView(tree: Tree, view: Oid, lua: Lua) returns (node: Node, k: nat, r: Answer, calls: seq<Call>)
    requires tree.Valid() && Served(tree.table, lua) && Fits32(view) && |view| <= VALUE_MAX_LEN
    ensures k <= |view| && k <= OID_MAX_LEN && [] in tree.at
    ensures view[..k] in tree.at && node == tree.at[view[..k]] && view[..k] in tree.table
    ensures node.isGroup <==> tree.table[view[..k]].Group?
    ensures node.isGroup && k < |view| ==> view[..k + 1] !in tree.table
  {
    hide Tree.Valid, Lookup, IsVar, Served, WellFormed;
    tree.RootAt();
    var found;
    found, k, r, calls := tree.Search(view, view, Get, lua);
    node := found;
    tree.NodeAt(view[..k]);
  }

  lemma StartNowhere(tree: Tree, q: Quest)
    requires tree.Valid() && q.t == tree.table && Served(q.t, q.lua) && q.base == [] && q.view <= q.from
    ensures q.Ok()
  {
    hide Tree.Valid;
    tree.RootAt();
    tree.NodeAt([]);
  }

  /** Handlers were asked at instance nodes only, at none of them twice, and at none that is still to be entered. */
  ghost predicate Asked(t: Table, calls: seq<Oid>, todo: set<Oid>) {
    && (forall i :: 0 <= i < |calls| ==> calls[i] in t && t[calls[i]].Leaf? && calls[i] !in todo)
    && (forall i, j :: 0 <= i < j < |calls| ==> calls[i] != calls[j])
  }

  lemma AskOnce(t: Table, calls: seq<Oid>, todo: set<Oid>, c: Oid)
    requires Asked(t, calls, todo) && c in t && t[c].Leaf? && c !in calls && c !in todo
    ensures Asked(t, calls + [c], todo)
  {
  }

  lemma AskedLess(t: Table, calls: seq<Oid>, todo: set<Oid>, c: Oid)
    requires Asked(t, calls, todo)
    ensures Asked(t, calls, todo - {c})
    ensures c in todo ==> c !in calls
  {
  }

  /** The state of one traversal: a node, the cursor into the OID buffer, the mode, the backlog and the popped entry. */
  datatype Cursor = Cursor(node: Node?, k: nat, idLen: int, immediate: bool, stk: seq<Backlog>, pnbl: Option<Backlog>,
    calls: seq<Oid>)

  ghost function Rank(cur: Cursor): nat {
    if cur.node == null then 0 else if cur.pnbl.Some? then 2 else if cur.immediate then 1 else 3
  }

  /** Lexicographic progress: nodes left to enter, then the kind of step ahead, then the backlog. */
  ghost predicate Progress(todo: set<Oid>, cur: Cursor, todo': set<Oid>, cur': Cursor) {
    todo' < todo || (todo' == todo && (Rank(cur') < Rank(cur) || (Rank(cur') == Rank(cur) && |cur'.stk| < |cur.stk|)))
  }

  /** The search belongs to this tree, and `b` is the content of the OID buffer. */
  ghost predicate Sound(tree: Tree, q: Quest, b: seq<nat>, cur: Cursor, todo: set<Oid>)
    reads tree
  {
    && q.Ok() && q.t == tree.table
    && |b| == VALUE_MAX_LEN && cur.k <= OID_MAX_LEN
    && q.base <= b[..cur.k] && tree.Stacked(|q.base|, b[..cur.k], cur.stk, false) && q.Near(b[..cur.k])
    && Asked(q.t, cur.calls, todo)
  }

  /** At a node whose subtree is still to be searched, the cursor at the node's depth. */
  ghost predicate Standing(tree: Tree, q: Quest, b: seq<nat>, cur: Cursor, todo: set<Oid>, pos: Oid)
    reads tree
  {
    && Sound(tree, q, b, cur, todo)
    && var c := b[..cur.k];
    && cur.node != null && c in tree.at && cur.node == tree.at[c] && c in q.t && (cur.node.isGroup <==> q.t[c].Group?)
    && q.OnSpot(todo, pos) && pos !in cur.calls && pos !in todo
    && (cur.pnbl.None? ==> pos == c)
    && (cur.pnbl.Some? ==> cur.immediate && cur.node.isGroup && 0 < cur.pnbl.value.nIdx < |q.t[c].ids|)
    && (cur.pnbl.Some? ==> pos == Child(c, q.t[c].ids[cur.pnbl.value.nIdx]) && q.Near(pos))
    && (cur.immediate ==> q.Clear(pos))
    && (!cur.immediate ==>
        && cur.k <= |q.from| <= VALUE_MAX_LEN && b[..|q.from|] == q.from
        && cur.idLen == |q.from| - cur.k)
    && (!cur.immediate && cur.node.isGroup ==> cur.k < |q.from|)
  }

  /** The subtree at the cursor is used up. */
  ghost predicate Exhausted(tree: Tree, q: Quest, b: seq<nat>, cur: Cursor, todo: set<Oid>)
    reads tree
  {
    Sound(tree, q, b, cur, todo) && q.Spent(todo, b[..cur.k])
  }

  ghost predicate Ready(tree: Tree, q: Quest, b: seq<nat>, cur: Cursor, todo: set<Oid>, pos: Oid)
    reads tree
  {
    if cur.node == null then Exhausted(tree, q, b, cur, todo) else Standing(tree, q, b, cur, todo, pos)
  }

  /** The start of a traversal satisfies its invariant. */
  lemma Begin(tree: Tree, q: Quest, b: seq<nat>, cur: Cursor)
    requires tree.Valid() && q.Ok() && q.t == tree.table && |b| == VALUE_MAX_LEN && cur.k <= OID_MAX_LEN
      && q.base == b[..cur.k]
    requires cur.stk == [] && cur.pnbl == None && cur.calls == []
    requires !q.live ==> cur.node == null && cur.k == 0
    requires q.live ==> q.base in tree.at && cur.node == tree.at[q.base]
    requires q.live && cur.immediate ==> q.Clear(q.base)
    requires q.live && !cur.immediate ==>
      cur.k <= |q.from| <= VALUE_MAX_LEN && b[..|q.from|] == q.from && cur.idLen == |q.from| - cur.k
    requires q.live && !cur.immediate && cur.node.isGroup ==> cur.k < |q.from|
    ensures Ready(tree, q, b, cur, q.t.Keys - {q.base}, q.base)
  {
    hide Tree.Valid, Tree.Stacked, Quest.Ok, Quest.OnSpot, Quest.Spent, Quest.Near, Quest.Clear;
    q.Begin();
    tree.NoEntries(q.base, false);
    if q.live {
      tree.NodeAt(q.base);
    }
  }

  /** Put the group aside and move down to its child `i`, writing the child's sub-id at the cursor. */
  method Descend(tree: Tree, ghost q: Quest, buf: array<nat>, cur: Cursor, i: nat, ghost todo: set<Oid>)
    returns (r: Cursor)
    requires tree.Valid() && tree.Apart(buf) && Sound(tree, q, buf[..], cur, todo)
    requires cur.node != null && buf[..][..cur.k] in tree.at && cur.node == tree.at[buf[..][..cur.k]]
      && cur.node.isGroup
    requires i < cur.node.subId.Length == cur.node.subPtr.Length
    requires i < cur.node.cnt || (i == 0 && cur.node.cnt == 0)
    modifies buf
    ensures tree.Valid() && tree.Apart(buf)
    ensures r == cur.(node := r.node, k := cur.k + 1, stk := r.stk) && r.k <= OID_MAX_LEN
    ensures r.stk != [] && r.stk[..|r.stk| - 1] == cur.stk && |r.stk| <= OID_MAX_LEN
    ensures r.node == old(cur.node.subPtr[i])
    ensures buf[..] == old(buf[..])[cur.k := old(cur.node.subId[i])]
    ensures buf[..][..r.k] == Child(old(buf[..][..cur.k]), old(cur.node.subId[i]))
    ensures tree.Stacked(|q.base|, buf[..][..r.k], r.stk, false)
  {
    hide Tree.Valid, Tree.Stacked, Quest.Near, Quest.Ok, Asked;
    ghost var c := buf[..][..cur.k];
    tree.NodeAt(c);
    var node := cur.node;
    var nbl := if i + 1 >= node.cnt then Backlog(null, -1) else Backlog(node, i + 1);
    ghost var x := node.subId[i];
    assert tree.EntryAt(c, x, nbl, false) by {
      assert node.subId[..node.cnt] == tree.table[c].ids;
    }
    tree.PushEntry(|q.base|, c, x, cur.stk, nbl, false);
    tree.PushLands(|q.base|, c, cur.stk, nbl, false);
    var stk := Push(cur.stk, nbl);
    buf[cur.k] := node.subId[i];
    assert buf[..][..cur.k + 1] == Child(c, x);
    r := cur.(node := node.subPtr[i], k := cur.k + 1, stk := stk);
  }

  /** Without regard to the request: enter the first child, or the one noted in the popped backlog. */
  method TakeChild(tree: Tree, ghost q: Quest, buf: array<nat>, cur: Cursor, ghost todo: set<Oid>, ghost pos: Oid)
    returns (r: Cursor, ghost todo': set<Oid>, ghost pos': Oid)
    requires tree.Valid() && tree.Apart(buf) && Standing(tree, q, buf[..], cur, todo, pos) && cur.immediate
      && cur.node.isGroup
    modifies buf
    ensures tree.Valid() && tree.Apart(buf)
    ensures Ready(tree, q, buf[..], r, todo', pos') && Progress(todo, cur, todo', r)
  {
    hide Tree.Valid, Tree.Stacked, Tree.Apart, Asked, Quest.Ok, Quest.OnSpot, Quest.Spent, Quest.Near, Quest.Clear;
    ghost var c := buf[..][..cur.k];
    tree.NodeAt(c);
    r, todo', pos' := cur, todo, pos;
    var i := 0;
    if r.pnbl.Some? {
      i := r.pnbl.value.nIdx;
      r := r.(pnbl := None);
    } else if r.node.cnt > 0 {
      q.StepFirst(todo, c);
      pos' := Child(c, r.node.subId[0]);
      AskedLess(q.t, r.calls, todo, pos');
      todo' := todo - {pos'};
    } else {
      q.StepEmpty(todo, c);
    }
    r := Descend(tree, q, buf, r, i, todo');
    if r.node != null {
      tree.NodeAt(buf[..][..r.k]);
    }
  }

  /** Follow the request: enter the child it names, else the next larger one; `up` says there is none. */
  method MatchChild(tree: Tree, ghost q: Quest, buf: array<nat>, cur: Cursor, ghost todo: set<Oid>, ghost pos: Oid)
    returns (up: bool, r: Cursor, ghost todo': set<Oid>, ghost pos': Oid)
    requires tree.Valid() && tree.Apart(buf) && Standing(tree, q, buf[..], cur, todo, pos) && !cur.immediate
      && cur.node.isGroup
    modifies buf
    ensures tree.Valid() && tree.Apart(buf)
    ensures up ==> Exhausted(tree, q, buf[..], r, todo) && todo' == todo && r.stk == cur.stk
    ensures !up ==> r.node != null && Standing(tree, q, buf[..], r, todo', pos') && Progress(todo, cur, todo', r)
  {
    hide Tree.Valid, Tree.Stacked, Tree.Apart, Asked, Quest.Ok, Quest.OnSpot, Quest.Spent, Quest.Near;
    hide Capacity, Less, LinkOk, WellFormed, Fits32;
    ghost var b := buf[..];
    ghost var c := b[..cur.k];
    tree.NodeAt(c);
    up, r, todo', pos' := false, cur, todo, pos;
    var index := BinarySearch(r.node.subId, r.node.cnt, buf[r.k]);
    var i := index;
    assert c == b[..|q.from|][..r.k];
    assert buf[r.k] == b[..|q.from|][r.k] == q.from[r.k];
    if index < 0 {
      r := r.(immediate := true);
      i := -i - 1;
      q.StepSkip(todo, r.k, i);
      if i == r.node.cnt {
        up := true;
        return;
      } else if i == 0 {
        return;
      }
    } else {
      q.StepMatch(todo, r.k);
    }
    pos' := Child(c, r.node.subId[i]);
    AskedLess(q.t, r.calls, todo, pos');
    todo' := todo - {pos'};
    r := Descend(tree, q, buf, r, i, todo');
    tree.NodeAt(buf[..][..r.k]);
    if !r.immediate {
      assert buf[..] == b;
    }
    r := r.(idLen := r.idLen - 1);
    if r.idLen == 0 && r.node.isGroup {
      r := r.(immediate := true);
    }
  }

  /** Ask the instance's handler for its next name; `None` uses the node up. */
  method Ask(tree: Tree, lua: Lua, view: Oid, ghost q: Quest, buf: array<nat>, cur: Cursor, ghost todo: set<Oid>,
    ghost pos: Oid)
    returns (offer: Option<NextAnswer>, r: Cursor)
    requires tree.Valid() && tree.Apart(buf) && Standing(tree, q, buf[..], cur, todo, pos) && !cur.node.isGroup
    requires q.view == view && q.lua == lua && Fits32(view) && |view| < ID_HALF
    modifies buf
    ensures tree.Valid() && tree.Apart(buf)
    ensures offer.None? ==> Exhausted(tree, q, buf[..], r, todo) && r.stk == cur.stk
    ensures offer.Some? ==> offer.value.Found? && Lookup(q.t, q.lua, offer.value.oid) == Some(offer.value.value)
    ensures offer.Some? && q.live ==> IsNext(q.t, q.lua, q.view, q.from, Some(offer.value.oid))
    ensures Asked(q.t, r.calls, todo)
  {
    hide Tree.Valid, Tree.Stacked, Asked, Quest.OnSpot, Quest.Spent, Quest.Near, Quest.Clear, IsNext, Lookup;
    hide WellFormed;
    hide Less, Capacity, LinkOk;
    var k := cur.k;
    ghost var c := buf[..][..k];
    tree.NodeAt(c);
    var rest := if cur.immediate || cur.idLen == 0 then [] else buf[k..k + cur.idLen];
    if !cur.immediate {
      assert buf[..][..|q.from|] == c + rest;
    }
    AskOnce(q.t, cur.calls, todo, c);
    r := cur.(calls := cur.calls + [buf[..k]]);
    assert buf[..k] == c;
    var h := lua[cur.node.callback];
    var n := HandlerNext(h, rest);
    q.StepLeaf(todo, c, rest);
    offer := None;
    if n < |h| {
      WriteOid(buf, k, h[n].suffix);
      var name := buf[..k + |h[n].suffix|];
      assert name == c + h[n].suffix;
      var cover := OidCover(view, name);
      if cover != 0 {
        return Some(Found(name, h[n].value)), r;
      }
      assert buf[..][..k] == c;
    }
  }

  lemma Calls(tree: Tree, q: Quest, b: seq<nat>, cur: Cursor, todo: set<Oid>)
    requires Exhausted(tree, q, b, cur, todo)
    ensures q.t == tree.table && Asked(q.t, cur.calls, todo)
  {
  }

  /** Go back to the last group put aside; `done` says the traversal is over. */
  method Backtrack(tree: Tree, ghost q: Quest, ghost b: seq<nat>, cur: Cursor, ghost todo: set<Oid>)
    returns (done: bool, r: Cursor, ghost todo': set<Oid>, ghost pos': Oid)
    requires tree.Valid() && Exhausted(tree, q, b, cur, todo)
    ensures done <==> cur.stk == []
    ensures done && q.live ==> IsNext(q.t, q.lua, q.view, q.from, None)
    ensures r.calls == cur.calls
    ensures !done ==> Ready(tree, q, b, r, todo', pos')
    ensures !done ==> todo' < todo || (todo' == todo && r.node == null && |r.stk| < |cur.stk|)
  {
    hide Tree.Valid, Tree.Stacked, Asked, Quest.Ok, Quest.OnSpot, Quest.Spent, Quest.Near, IsNext;
    ghost var c := b[..cur.k];
    r, todo', pos' := cur, todo, [];
    if cur.stk == [] {
      if q.live {
        tree.AllPopped(|q.base|, c, false);
        assert c == q.base;
        q.StepEnd(todo);
      }
      return true, r, todo', pos';
    }
    tree.PopEntry(|q.base|, c, cur.stk, false);
    var top := cur.stk[|cur.stk| - 1];
    ghost var p := Parent(c);
    assert q.base <= p && b[..cur.k - 1] == p;
    if top.node == null {
      q.StepPopLast(todo, p, Last(c));
    } else {
      tree.NodeAt(p);
      q.StepPopNext(todo, p, top.nIdx);
      pos' := Child(p, q.t[p].ids[top.nIdx]);
      AskedLess(q.t, cur.calls, todo, pos');
      todo' := todo - {pos'};
    }
    r := cur.(node := top.node, k := cur.k - 1, immediate := true, stk := cur.stk[..|cur.stk| - 1], pnbl := Some(top));
    done := false;
  }

  /**
   One round: look at the node, then go back if its subtree is used up. A finished search has an offer or proves
   there is none.
   */
  method Round(tree: Tree, lua: Lua, view: Oid, ghost q: Quest, buf: array<nat>, cur: Cursor, ghost todo: set<Oid>,
    ghost pos: Oid)
    returns (done: bool, offer: Option<NextAnswer>, r: Cursor, ghost todo': set<Oid>, ghost pos': Oid)
    requires tree.Valid() && tree.Apart(buf) && Ready(tree, q, buf[..], cur, todo, pos)
    requires !q.live ==> cur.node == null && cur.stk == []
    requires q.view == view && q.lua == lua && Fits32(view) && |view| < ID_HALF
    modifies buf
    ensures tree.Valid() && tree.Apart(buf)
    ensures !done ==> q.live && Ready(tree, q, buf[..], r, todo', pos') && Progress(todo, cur, todo', r)
    ensures done && offer.Some? ==> offer.value.Found? && Lookup(q.t, q.lua, offer.value.oid) == Some(offer.value.value)
    ensures done && q.live ==> IsNext(q.t, q.lua, q.view, q.from, if offer.Some? then Some(offer.value.oid) else None)
    ensures done && !q.live ==> offer.None?
    ensures done ==> Asked(q.t, r.calls, {})
  {
    hide Tree.Valid, Tree.Apart, Sound, Standing, Quest.Spent, IsNext, Lookup;
    var up := true;
    done, offer, r, todo', pos' := false, None, cur, todo, pos;
    if cur.node != null {
      if cur.node.isGroup {
        if cur.immediate {
          r, todo', pos' := TakeChild(tree, q, buf, cur, todo, pos);
          return;
        }
        up, r, todo', pos' := MatchChild(tree, q, buf, cur, todo, pos);
      } else {
        offer, r := Ask(tree, lua, view, q, buf, cur, todo, pos);
        done := offer.Some?;
      }
    }
    if up && !done {
      Calls(tree, q, buf[..], r, todo');
      done, r, todo', pos' := Backtrack(tree, q, buf[..], r, todo');
    }
  }

  /**
   Search for the next variable under `view` after `orig`: depth first, with an explicit backlog.
   `calls` lists the instance nodes whose handler was asked.
   */
  method SearchNext(tree: Tree, view: Oid, orig: Oid, lua: Lua) returns (r: NextAnswer, calls: seq<Oid>)
    requires tree.Valid() && Served(tree.table, lua)
    requires Fits32(view) && Fits32(orig) && |view| <= VALUE_MAX_LEN && |orig| <= VALUE_MAX_LEN
    ensures r.EndOfMibView? ==> r.oid == orig
    ensures r.Found? ==> Lookup(tree.table, lua, r.oid) == Some(r.value)
    ensures Answers(tree.table, lua, view, orig, r.Name())
    ensures forall i :: 0 <= i < |calls| ==> calls[i] in tree.table && tree.table[calls[i]].Leaf?
    ensures forall i, j :: 0 <= i < j < |calls| ==> calls[i] != calls[j]
  {
    hide Tree.Valid, IsNext, Lookup, CmpSpec, Served, Quest.Ok, Quest.Clear, Ready;
    var buf := new nat[VALUE_MAX_LEN];
    assert tree.Apart(buf);
    hide Tree.Apart;
    var node, k, idLen, immediate;
    ghost var q;
    node, k, idLen, immediate, q := StartNext(tree, view, orig, lua, buf);
    var cur := Cursor(node, k, idLen, immediate, [], None, []);
    ghost var todo, pos := q.t.Keys - {q.base}, q.base;
    Begin(tree, q, buf[..], cur);
    while true
      invariant tree.Valid() && tree.Apart(buf) && buf.Length == VALUE_MAX_LEN
      invariant Ready(tree, q, buf[..], cur, todo, pos)
      invariant !q.live ==> cur.node == null && cur.stk == []
      decreases todo, Rank(cur), |cur.stk|
    {
      var done, offer;
      done, offer, cur, todo, pos := Round(tree, lua, view, q, buf, cur, todo, pos);
      if done {
        if offer.Some? {
          return offer.value, cur.calls;
        }
        WriteOid(buf, 0, orig);
        return EndOfMibView(buf[..|orig|]), cur.calls;
      }
    }
  }
}
