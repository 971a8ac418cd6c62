/**
 Unregistering: finding the node, releasing its subtree bottom-up with an explicit backlog, and closing the gap in
 its parent.
 */
module TreeDelete {
  import opened Oids
  import opened MibTable
  import opened NextSearch
  import opened TableEdit
  import opened SubtreeOrder
  import opened MibTree
  import opened TreeUpdate

  /** Nodes of the subtree neither released nor on the way to `c`. */
  ghost function Left(t: Table, base: Oid, done: set<Oid>, c: Oid): set<Oid> {
    set r | r in t && base <= r && r !in done && !(r <= c)
  }

  ghost function Elems(s: seq<Oid>): set<Oid> {
    set i | 0 <= i < |s| :: s[i]
  }

  /** The record of what was released: `paths` in order, the nodes themselves and the callbacks given back. */
  ghost predicate Logged(t: Table, at: map<Oid, Node>, base: Oid, paths: seq<Oid>, freed: seq<Node>, unrefs: seq<int>) {
    && |freed| == |paths| && PostOrder(paths)
    && (forall i :: 0 <= i < |paths| ==>
          paths[i] in t && base <= paths[i] && paths[i] in at && freed[i] == at[paths[i]])
    && unrefs == Callbacks(t, paths)
  }

  /** Where the traversal stands: between nodes, at a fresh node, or back at a group with the next child to visit. */
  ghost predicate Stage(t: Table, at: map<Oid, Node>, base: Oid, done: set<Oid>, c: Oid, node: Node?,
    pnbl: Option<Backlog>) {
    if node == null then done == Through(t, base, c)
    else
      && c in at && c in t && node == at[c] && (node.isGroup <==> t[c].Group?)
      && match pnbl
         case None => done == Before(t, base, c)
         case Some(b) =>
           && t[c].Group?
           && if b.nIdx == -1 then done + {c} == Through(t, base, c) && forall r :: r in done ==> !(r <= c)
              else 0 < b.nIdx < |t[c].ids| && done == Before(t, base, Child(c, t[c].ids[b.nIdx]))
  }

  /** The position the traversal is heading for. */
  ghost function Aim(t: Table, c: Oid, node: Node?, pnbl: Option<Backlog>): Oid {
    if node != null && pnbl.Some? && c in t && t[c].Group? && 0 < pnbl.value.nIdx < |t[c].ids|
    then Child(c, t[c].ids[pnbl.value.nIdx]) else c
  }

  ghost function Rank'(node: Node?, pnbl: Option<Backlog>): nat {
    if node == null then 0 else if pnbl.None? then 1 else if pnbl.value.nIdx == -1 then 0 else 2
  }

  lemma ElemsAppend(s: seq<Oid>, c: Oid)
    ensures Elems(s + [c]) == Elems(s) + {c}
  {
    var r := s + [c];
    assert forall i :: 0 <= i < |s| ==> r[i] == s[i];
    assert r[|s|] == c;
  }

  /** Release one node: it is new to the record, and none of its descendants comes later. */
  lemma LogAppend(t: Table, at: map<Oid, Node>, base: Oid, paths: seq<Oid>, freed: seq<Node>, unrefs: seq<int>, c: Oid)
    requires Logged(t, at, base, paths, freed, unrefs) && c in t && c in at && base <= c
    requires forall r :: r in Elems(paths) ==> !(r <= c)
    ensures Logged(t, at, base, paths + [c], freed + [at[c]], unrefs + if t[c].Leaf? then [t[c].callback] else [])
    ensures Elems(paths + [c]) == Elems(paths) + {c}
  {
    ElemsAppend(paths, c);
    var ps := paths + [c];
    assert ps[..|paths|] == paths;
    forall i | 0 <= i < |paths|
      ensures !(paths[i] <= c)
    {
      assert paths[i] in Elems(paths);
    }
  }

  lemma Enters(t: Table, base: Oid, done: set<Oid>, c: Oid, ch: Oid)
    requires ch in t && base <= ch && ch !in done && !(ch <= c)
      && (forall r :: r in t && r <= c && r !in done ==> r <= ch)
    ensures Left(t, base, done, ch) < Left(t, base, done, c)
  {
    assert ch in Left(t, base, done, c);
  }

  /** Down from a fresh group: to its first child, or past the end of an empty one. */
  lemma StepDown(t: Table, base: Oid, done: set<Oid>, c: Oid)
    requires WellFormed(t) && c in t && t[c].Group? && base <= c && done == Before(t, base, c)
    ensures t[c].ids != [] ==> var ch := Child(c, t[c].ids[0]);
      ch in t && done == Before(t, base, ch) && Left(t, base, done, ch) < Left(t, base, done, c)
    ensures t[c].ids == [] ==>
      done == Through(t, base, Child(c, 0)) && Left(t, base, done, Child(c, 0)) <= Left(t, base, done, c)
  {
    assert NodeOk(t, c);
    if t[c].ids != [] {
      var ch := Child(c, t[c].ids[0]);
      FirstChild(t, base, c);
      Trichotomy(ch, ch);
      Enters(t, base, done, c, ch);
    } else {
      EmptyDone(t, base, c);
    }
  }

  lemma StepBackNext(t: Table, base: Oid, done: set<Oid>, p: Oid, n: nat)
    requires WellFormed(t) && p in t && t[p].Group? && base <= p && 0 < n < |t[p].ids|
    requires done == Through(t, base, Child(p, t[p].ids[n - 1]))
    ensures var ch := Child(p, t[p].ids[n]);
      && done == Before(t, base, ch)
      && Left(t, base, done, ch) < Left(t, base, done, Child(p, t[p].ids[n - 1]))
  {
    var c, ch := Child(p, t[p].ids[n - 1]), Child(p, t[p].ids[n]);
    assert NodeOk(t, p);
    NextChild(t, base, p, n);
    Trichotomy(ch, ch);
    forall r | r in t && r <= c && r !in done
      ensures r <= ch
    {
      assert r != c;
      assert r <= p;
    }
    Enters(t, base, done, c, ch);
  }

  lemma StepBackLast(t: Table, base: Oid, done: set<Oid>, p: Oid, x: nat)
    requires WellFormed(t) && EntryOk(t, p, x, -1) && base <= p && done == Through(t, base, Child(p, x))
    ensures done + {p} == Through(t, base, p) && (forall r :: r in done ==> !(r <= p))
    ensures Left(t, base, done, p) <= Left(t, base, done, Child(p, x))
  {
    var c := Child(p, x);
    LastChild(t, base, p, x);
    forall r | r in done
      ensures !(r <= p)
    {
      assert r <= p ==> r <= c;
    }
    forall r | r in Left(t, base, done, p)
      ensures !(r <= c)
    {
      assert r <= c ==> r == c || r <= p;
    }
  }

  /** The state of a deletion: the node to look at, the backlog, the popped entry, and the record so far. */
  datatype Wrecker = Wrecker(node: Node?, stk: seq<Backlog>, pnbl: Option<Backlog>, freed: seq<Node>, unrefs: seq<int>)

  ghost predicate Going(tree: Tree, base: Oid, w: Wrecker, c: Oid, paths: seq<Oid>)
    reads tree
  {
    && base <= c && |c| <= OID_MAX_LEN && tree.Stacked(|base|, c, w.stk, true)
    && Logged(tree.table, tree.at, base, paths, w.freed, w.unrefs)
    && Stage(tree.table, tree.at, base, Elems(paths), c, w.node, w.pnbl)
  }

  ghost function Work(tree: Tree, base: Oid, w: Wrecker, c: Oid, paths: seq<Oid>): set<Oid>
    reads tree
  {
    Left(tree.table, base, Elems(paths), Aim(tree.table, c, w.node, w.pnbl))
  }

  /** Put the group aside and go down to its child `i`, or to the cleared slot of an empty group. */
  method GoDown(tree: Tree, ghost base: Oid, w: Wrecker, i: nat, ghost c: Oid, ghost paths: seq<Oid>)
    returns (r: Wrecker, ghost c': Oid)
    requires tree.Valid() && Going(tree, base, w, c, paths) && w.node != null && w.node.isGroup
    requires w.pnbl.None? ==> i == 0
    requires w.pnbl.Some? ==> w.pnbl.value.nIdx == i
    ensures Going(tree, base, r, c', paths)
    ensures r.stk != [] && r.stk[..|r.stk| - 1] == w.stk && |r.stk| <= OID_MAX_LEN
    ensures Work(tree, base, r, c', paths) <= Work(tree, base, w, c, paths)
    ensures Work(tree, base, r, c', paths) < Work(tree, base, w, c, paths) ||
      Rank'(r.node, r.pnbl) < Rank'(w.node, w.pnbl)
  {
    hide Tree.Valid, Tree.Stacked, Logged, WellFormed, Left, Elems, Before, Through;
    tree.NodeAt(c);
    var node := w.node;
    var nbl := if i + 1 >= node.cnt then Backlog(node, -1) else Backlog(node, i + 1);
    c' := Child(c, node.subId[i]);
    assert tree.EntryAt(c, node.subId[i], nbl, true) by {
      assert node.subId[..node.cnt] == tree.table[c].ids;
    }
    tree.PushEntry(|base|, c, node.subId[i], w.stk, nbl, true);
    tree.PushLands(|base|, c, w.stk, nbl, true);
    var stk := Push(w.stk, nbl);
    if w.pnbl.None? {
      StepDown(tree.table, base, Elems(paths), c);
    }
    r := w.(node := node.subPtr[i], stk := stk, pnbl := None);
    if r.node != null {
      tree.NodeAt(c');
    }
  }

  /** Release the node at `c`: an instance, or a group whose children are all gone. */
  method Release(tree: Tree, ghost base: Oid, w: Wrecker, ghost c: Oid, ghost paths: seq<Oid>)
    returns (r: Wrecker, ghost paths': seq<Oid>)
    requires tree.Valid() && Going(tree, base, w, c, paths) && w.node != null
    requires w.node.isGroup ==> w.pnbl.Some? && w.pnbl.value.nIdx == -1
    requires !w.node.isGroup ==> w.pnbl.None?
    ensures paths' == paths + [c] && r == w.(node := null, freed := w.freed + [w.node], unrefs := r.unrefs)
      && w.node !in w.freed
    ensures Going(tree, base, r, c, paths')
    ensures Work(tree, base, r, c, paths') <= Work(tree, base, w, c, paths)
  {
    hide Tree.Valid, Tree.Stacked, WellFormed, Before, Through;
    tree.NodeAt(c);
    var node := w.node;
    ghost var done := Elems(paths);
    if !node.isGroup {
      LeafDone(tree.table, base, c);
      NotBefore(tree.table, base, c);
    }
    LogAppend(tree.table, tree.at, base, paths, w.freed, w.unrefs, c);
    NotYetFreed(tree, base, w, c, paths);
    paths' := paths + [c];
    r := w.(node := null, freed := w.freed + [node], unrefs := w.unrefs + if node.isGroup then [] else [node.callback]);
  }

  lemma NotBefore(t: Table, base: Oid, c: Oid)
    ensures forall r :: r in Before(t, base, c) ==> !(r <= c)
  {
  }

  /** A node is looked at only while it is still allocated. */
  lemma NotYetFreed(tree: Tree, base: Oid, w: Wrecker, c: Oid, paths: seq<Oid>)
    requires tree.Valid() && Logged(tree.table, tree.at, base, paths, w.freed, w.unrefs)
    requires c in tree.at && c !in Elems(paths)
    ensures tree.at[c] !in w.freed
  {
    forall i | 0 <= i < |w.freed|
      ensures w.freed[i] != tree.at[c]
    {
      assert paths[i] in Elems(paths);
      assert tree.InPlace(c) && tree.InPlace(paths[i]);
    }
  }

  /** Go back to the group put aside last. */
  method GoBack(tree: Tree, ghost base: Oid, w: Wrecker, ghost c: Oid, ghost paths: seq<Oid>)
    returns (r: Wrecker, ghost c': Oid)
    requires tree.Valid() && Going(tree, base, w, c, paths) && w.node == null && w.stk != []
    ensures Going(tree, base, r, c', paths) && |r.stk| < |w.stk|
    ensures Work(tree, base, r, c', paths) <= Work(tree, base, w, c, paths)
    ensures Work(tree, base, r, c', paths) < Work(tree, base, w, c, paths) || Rank'(r.node, r.pnbl) == 0
  {
    hide Tree.Valid, Tree.Stacked, Logged, WellFormed, Left, Elems, Before, Through;
    tree.PopEntry(|base|, c, w.stk, true);
    var top := w.stk[|w.stk| - 1];
    c' := Parent(c);
    assert base <= c';
    tree.NodeAt(c');
    if top.nIdx == -1 {
      StepBackLast(tree.table, base, Elems(paths), c', Last(c));
    } else {
      StepBackNext(tree.table, base, Elems(paths), c', top.nIdx);
    }
    r := w.(node := top.node, stk := w.stk[..|w.stk| - 1], pnbl := Some(top));
  }

  /** Release a whole subtree, children first, and give back the callbacks of its instances. */
  method TearDown(tree: Tree, start: Node, ghost base: Oid)
    returns (freed: seq<Node>, unrefs: seq<int>, ghost paths: seq<Oid>)
    requires tree.Valid() && base in tree.at && start == tree.at[base]
    ensures Logged(tree.table, tree.at, base, paths, freed, unrefs)
    ensures Elems(paths) == set p | p in tree.table && base <= p
    ensures forall i, j :: 0 <= i < j < |freed| ==> freed[i] != freed[j]
    ensures forall p :: p in tree.at && base <= p ==> tree.at[p] in freed
    ensures forall p :: p in tree.at && !(base <= p) ==> tree.at[p] !in freed
  {
    hide Tree.Valid, Tree.Stacked, Logged, WellFormed, Left, Before, Through;
    var w := Wrecker(start, [], None, [], []);
    ghost var c := base;
    paths := [];
    Start(tree, base, w);
    while true
      invariant Going(tree, base, w, c, paths)
      decreases Work(tree, base, w, c, paths), Rank'(w.node, w.pnbl), |w.stk|
    {
      if w.node != null && w.node.isGroup && (w.pnbl.None? || w.pnbl.value.nIdx != -1) {
        w, c := GoDown(tree, base, w, if w.pnbl.Some? then w.pnbl.value.nIdx else 0, c, paths);
      } else {
        if w.node != null {
          w, paths := Release(tree, base, w, c, paths);
        }
        if w.stk == [] {
          Finish(tree, base, w, c, paths);
          FreedExactly(tree, base, paths, w.freed, w.unrefs);
          return w.freed, w.unrefs, paths;
        }
        w, c := GoBack(tree, base, w, c, paths);
      }
    }
  }

  lemma Start(tree: Tree, base: Oid, w: Wrecker)
    requires tree.Valid() && base in tree.at && w == Wrecker(tree.at[base], [], None, [], [])
    ensures Going(tree, base, w, base, [])
  {
    hide Tree.Valid;
    tree.NodeAt(base);
    forall p | p in tree.table && base <= p
      ensures !Less(p, base)
    {
      PrefixIsLe(base, p);
      Trichotomy(base, p);
    }
  }

  lemma Finish(tree: Tree, base: Oid, w: Wrecker, c: Oid, paths: seq<Oid>)
    requires Going(tree, base, w, c, paths) && w.node == null && w.stk == []
    ensures Logged(tree.table, tree.at, base, paths, w.freed, w.unrefs)
    ensures Elems(paths) == set p | p in tree.table && base <= p
  {
    assert c == base;
    AllDone(tree.table, base);
  }

  /** Paths and nodes correspond one to one, so the nodes released are those of the subtree, each of them once. */
  lemma FreedExactly(tree: Tree, base: Oid, paths: seq<Oid>, freed: seq<Node>, unrefs: seq<int>)
    requires tree.Valid() && Logged(tree.table, tree.at, base, paths, freed, unrefs)
    requires Elems(paths) == set p | p in tree.table && base <= p
    ensures forall i, j :: 0 <= i < j < |freed| ==> freed[i] != freed[j]
    ensures forall p :: p in tree.at && base <= p ==> tree.at[p] in freed
    ensures forall p :: p in tree.at && !(base <= p) ==> tree.at[p] !in freed
  {
    forall p, q | p in tree.at && q in tree.at && tree.at[p] == tree.at[q]
      ensures p == q
    {
      OnePath(tree, p, q);
    }
    hide Tree.Valid;
    tree.RootAt();
    forall p | p in tree.at && base <= p
      ensures tree.at[p] in freed
    {
      assert p in Elems(paths);
      var i :| 0 <= i < |paths| && paths[i] == p;
      assert freed[i] == tree.at[p];
    }
  }

  lemma OnePath(tree: Tree, p: Oid, q: Oid)
    requires tree.Valid() && p in tree.at && q in tree.at && tree.at[p] == tree.at[q]
    ensures p == q
  {
    assert tree.InPlace(p) && tree.InPlace(q);
  }

  ghost function Without<T>(at: map<Oid, T>, q: Oid): map<Oid, T> {
    map r | r in at && !(q <= r) :: at[r]
  }

  lemma ShrunkGroup(t: Table, at: map<Oid, Node>, ptrs: seq<Node?>, q: Oid)
    requires WellFormed(t) && q in t && q != [] && at.Keys == t.Keys && LinkOk(t, q)
    requires var p := Parent(q); var i := Rank(t[p].ids, Last(q));
      && i < |t[p].ids| && at[p].Holds(Group(RemoveAt(t[p].ids, i)))
      && |ptrs| == |t[p].ids|
      && (forall j :: 0 <= j < |ptrs| ==> Child(p, t[p].ids[j]) in at && ptrs[j] == at[Child(p, t[p].ids[j])])
      && at[p].subPtr[..at[p].cnt] == ptrs[..i] + ptrs[i + 1..]
    ensures Parent(q) in Pruned(t, q) && at[Parent(q)].Stores(Parent(q), Pruned(t, q), Without(at, q))
  {
    var p, i, t', at' := Parent(q), Rank(t[Parent(q)].ids, Last(q)), Pruned(t, q), Without(at, q);
    PrunedOk(t, q);
    assert NodeOk(t', p);
    forall j | 0 <= j < |t'[p].ids|
      ensures Child(p, t'[p].ids[j]) in at' && at[p].subPtr[j] == at'[Child(p, t'[p].ids[j])]
    {
      assert at[p].subPtr[j] == (ptrs[..i] + ptrs[i + 1..])[j];
      assert t'[p].ids[j] == if j < i then t[p].ids[j] else t[p].ids[j + 1];
      assert Child(p, t'[p].ids[j]) in t';
    }
  }

  /** Nodes off the removed subtree keep their children. */
  lemma KeptNode(t: Table, at: map<Oid, Node>, q: Oid, r: Oid)
    requires WellFormed(t) && q in t && q != [] && at.Keys == t.Keys && LinkOk(t, q)
    requires r in at && !(q <= r) && r != Parent(q) && at[r].Stores(r, t, at)
    ensures at[r].Stores(r, Pruned(t, q), Without(at, q))
  {
    if t[r].Group? {
      forall i | 0 <= i < |t[r].ids|
        ensures Child(r, t[r].ids[i]) in Without(at, q)
      {
        var c := Child(r, t[r].ids[i]);
        assert Parent(c) == r;
        assert q <= c ==> q <= r || q == c;
      }
    }
  }

  lemma PrunedValid(tree: Tree, t: Table, at: map<Oid, Node>, q: Oid)
    requires WellFormed(t) && q in t && q != [] && at.Keys == t.Keys && LinkOk(t, q) && [] in at && at[[]] == tree.root
    requires tree.table == Pruned(t, q) && tree.at == Without(at, q)
    requires OthersOk(at, t, tree.owner, Parent(q)) && at[Parent(q)].OwnedBy(Parent(q), tree.owner)
    requires at[Parent(q)].Stores(Parent(q), tree.table, tree.at)
    ensures tree.Valid()
  {
    PrunedOk(t, q);
    forall r {:trigger tree.InPlace(r)} | r in tree.at
      ensures tree.InPlace(r)
    {
      if r != Parent(q) {
        KeptNode(t, at, q, r);
      }
    }
    assert tree.at.Keys == tree.table.Keys;
  }

  /** Close the gap left in the parent's arrays. */
  method CloseGap(gn: Node, i: nat, ghost t: Table, ghost at: map<Oid, Node>, ghost owner: Owners, ghost q: Oid)
    requires WellFormed(t) && at.Keys == t.Keys && q in t && q != [] && LinkOk(t, q) && gn == at[Parent(q)]
      && i == Rank(t[Parent(q)].ids, Last(q))
    requires gn.Stores(Parent(q), t, at) && gn.OwnedBy(Parent(q), owner)
    requires OthersOk(at, t, owner, Parent(q)) && Separate(at, gn, Parent(q))
    modifies gn`cnt, gn.subId, gn.subPtr
    ensures Parent(q) in Pruned(t, q) && gn.Stores(Parent(q), Pruned(t, q), Without(at, q))
      && gn.OwnedBy(Parent(q), owner)
    ensures OthersOk(at, t, owner, Parent(q)) && PartsOf(at) == old(PartsOf(at))
  {
    hide OthersOk, PartsOf, Pruned, Without, Rank;
    ghost var ptrs := gn.subPtr[..gn.cnt];
    assert NodeOk(t, Parent(q));
    RemoveSorted(t[Parent(q)].ids, Last(q));
    hide WellFormed, IdsSorted, NodeOk;
    Unslot(gn, i, t[Parent(q)].ids);
    assert OthersOk(at, t, owner, Parent(q));
    hide Separate;
    assert gn.subPtr[..gn.cnt] == ptrs[..i] + ptrs[i + 1..];
    hide Node.Holds;
    ShrunkGroup(t, at, ptrs, q);
  }

  /** Take child `i` out of a group's arrays. */
  method Unslot(gn: Node, i: nat, ghost ids: seq<nat>)
    requires gn.Holds(Group(ids)) && i < |ids|
    modifies gn`cnt, gn.subId, gn.subPtr
    ensures gn.Holds(Group(RemoveAt(ids, i)))
    ensures gn.subPtr[..gn.cnt] == old(gn.subPtr[..i]) + old(gn.subPtr[i + 1..gn.cnt])
  {
    assert forall j :: 0 <= j < |ids| ==> ids[j] == gn.subId[..gn.cnt][j] == gn.subId[j];
    Shrink(gn, i);
    assert gn.subId[..gn.cnt] == RemoveAt(ids, i);
  }

  lemma FewerParts(at: map<Oid, Node>, q: Oid)
    ensures PartsOf(Without(at, q)) <= PartsOf(at)
  {
    assert forall p :: p in Without(at, q) ==> p in at && Without(at, q)[p] == at[p];
  }

  /** Drop the subtree at `q` from the tree's abstract value. */
  ghost method Forget(tree: Tree, q: Oid)
    requires WellFormed(tree.table) && q in tree.table && q != [] && tree.at.Keys == tree.table.Keys
      && LinkOk(tree.table, q)
    requires [] in tree.at && tree.at[[]] == tree.root && Parent(q) in Pruned(tree.table, q)
    requires tree.at[Parent(q)].Stores(Parent(q), Pruned(tree.table, q), Without(tree.at, q))
      && tree.at[Parent(q)].OwnedBy(Parent(q), tree.owner)
    requires OthersOk(tree.at, tree.table, tree.owner, Parent(q))
    modifies tree
    ensures tree.Valid() && tree.table == Pruned(old(tree.table), q) && tree.at == Without(old(tree.at), q)
    ensures tree.Parts() <= old(tree.Parts())
  {
    hide OthersOk, Pruned, Without, WellFormed, Node.Stores, Tree.Valid;
    var t, at := tree.table, tree.at;
    tree.table, tree.at := Pruned(t, q), Without(at, q);
    FewerParts(at, q);
    PrunedValid(tree, t, at, q);
  }

  /**
   Find the node an OID names, with its parent and its place there; an instance also answers to one trailing sub-id.
   */
  method FindNode(tree: Tree, oid: Oid) returns (node: Node?, parent: Node, i: nat)
    requires tree.Valid()
    ensures node == null <==> Target(tree.table, oid) == None
    ensures node != null ==> var q := Target(tree.table, oid).value;
      && q in tree.at && node == tree.at[q]
      && (q != [] ==>
          && Parent(q) in tree.at && parent == tree.at[Parent(q)] && Parent(q) in tree.table
          && tree.table[Parent(q)].Group? && i == Rank(tree.table[Parent(q)].ids, Last(q)))
      && (q == [] ==> node == tree.root)
  {
    hide Tree.Valid, Rank;
    tree.RootAt();
    parent, i := tree.root, 0;
    var cur := tree.root;
    var k := 0;
    assert oid[..0] == [];
    while k < |oid|
      invariant k <= |oid| && oid[..k] in tree.at && cur == tree.at[oid[..k]]
      invariant k == 0 ==> cur == tree.root
      invariant 0 < k ==>
        && oid[..k - 1] in tree.at && parent == tree.at[oid[..k - 1]] && oid[..k - 1] in tree.table
        && tree.table[oid[..k - 1]].Group? && i == Rank(tree.table[oid[..k - 1]].ids, oid[k - 1])
    {
      tree.NodeAt(oid[..k]);
      ghost var c := oid[..k];
      assert 0 < k ==> Parent(c) == oid[..k - 1] && Last(c) == oid[k - 1];
      if cur.isGroup {
        var r := BinarySearch(cur.subId, cur.cnt, oid[k]);
        assert oid[..k + 1] == Child(c, oid[k]);
        if r < 0 {
          Absent(tree.table, oid, k);
          return null, parent, i;
        }
        assert tree.table[c].ids == cur.subId[..cur.cnt];
        RankIs(tree.table[c].ids, oid[k], r);
        i := r;
        parent := cur;
        cur := cur.subPtr[r];
        k := k + 1;
        assert oid[..k - 1] == c;
      } else {
        BelowLeaf(tree.table, oid, k);
        if |oid| - k != 1 {
          return null, parent, i;
        }
        return cur, parent, i;
      }
    }
    assert oid[..k] == oid;
    tree.NodeAt(oid);
    assert 0 < k ==> Parent(oid) == oid[..k - 1] && Last(oid) == oid[k - 1];
    return cur, parent, i;
  }

  lemma Absent(t: Table, oid: Oid, k: nat)
    requires WellFormed(t) && k < |oid| && oid[..k] in t && t[oid[..k]].Group? && oid[k] !in t[oid[..k]].ids
    ensures Target(t, oid) == None
  {
    FreeHere(t, oid, k);
    assert oid[..|oid| - 1] == Parent(oid);
  }

  lemma BelowLeaf(t: Table, oid: Oid, k: nat)
    requires WellFormed(t) && k < |oid| && oid[..k] in t && t[oid[..k]].Leaf?
    ensures Target(t, oid) == if k + 1 == |oid| then Some(oid[..k]) else None
  {
    var c := oid[..k];
    forall r | r in t && c < r
      ensures false
    {
      NodeThroughGroup(t, c, r);
    }
    assert oid !in t;
    assert Parent(oid) == oid[..|oid| - 1];
    if k + 1 < |oid| {
      assert c < Parent(oid);
    }
  }

  /**
   Unregister the subtree an OID names. What is released is exactly that subtree, children first, each callback
   once.
   */
  method Unregister(tree: Tree, oid: Oid) returns (freed: seq<Node>, unrefs: seq<int>, ghost paths: seq<Oid>)
    requires tree.Valid()
    modifies tree, tree.at.Values, set p | p in tree.at :: tree.at[p].subId, set p | p in tree.at :: tree.at[p].subPtr
    ensures tree.Valid() && WellFormed(old(tree.table)) && tree.table == Unregistered(old(tree.table), oid)
    ensures tree.Parts() <= old(tree.Parts())
    ensures var q := Target(old(tree.table), oid);
      tree.at == if q.Some? && q.value != [] then Without(old(tree.at), q.value) else old(tree.at)
    ensures Logged(old(tree.table), old(tree.at), [], paths, freed, unrefs)
    ensures Elems(paths) == old(tree.table.Keys) - tree.table.Keys
  {
    hide Tree.Valid, PartsOf, Pruned, Rank, WellFormed, OthersOk, Separate, Logged, Elems, Without, Node.Holds;
    hide Node.Stores, Node.OwnedBy;
    var node, parent, i := FindNode(tree, oid);
    tree.RootAt();
    tree.NodeAt([]);
    if node == null || node == tree.root {
      if node != null {
        OnePath(tree, Target(tree.table, oid).value, []);
      }
      NothingLogged(tree.table, tree.at);
      return [], [], [];
    }
    ghost var q := Target(tree.table, oid).value;
    ghost var t, at := tree.table, tree.at;
    freed, unrefs, paths := TearDown(tree, node, q);
    LoggedFromRoot(t, at, q, paths, freed, unrefs);
    PrunedOk(t, q);
    OthersApart(tree, Parent(q));
    CloseGap(parent, i, t, at, tree.owner, q);
    Forget(tree, q);
    PrunedKeys(t, q);
  }

  lemma NothingLogged(t: Table, at: map<Oid, Node>)
    ensures Logged(t, at, [], [], [], []) && Elems([]) == {}
  {
  }

  lemma LoggedFromRoot(t: Table, at: map<Oid, Node>, q: Oid, paths: seq<Oid>, freed: seq<Node>, unrefs: seq<int>)
    requires Logged(t, at, q, paths, freed, unrefs)
    ensures Logged(t, at, [], paths, freed, unrefs)
  {
  }

  lemma PrunedKeys(t: Table, q: Oid)
    requires q in t && q != [] && LinkOk(t, q)
    ensures t.Keys - Pruned(t, q).Keys == set p | p in t && q <= p
  {
  }
}
