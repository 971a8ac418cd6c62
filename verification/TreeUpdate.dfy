/** Registering and unregistering in the MIB tree: group arrays grow, shift and shrink in place. */
module TreeUpdate {
  import opened Oids
  import opened MibTable
  import opened TableEdit
  import opened MibTree

  /** If the OID can be registered at all, the group that receives the new child has room for one more. */
  ghost predicate RoomFor(t: Table, oid: Oid) {
    |oid| <= OID_MAX_LEN && Free(t, oid) ==>
      var c := oid[..Walk(t, oid, 0)]; c in t && t[c].Group? ==> |t[c].ids| < GROUP_MAX
  }

  /** Copy one array into a larger one, leaving a gap at `index`. */
  method CopyApart<T>(src: array<T>, n: nat, dst: array<T>, index: nat)
    requires index <= n <= src.Length && n < dst.Length && src != dst
    modifies dst
    ensures forall j :: 0 <= j < index ==> dst[j] == src[j]
    ensures forall j :: index < j <= n ==> dst[j] == src[j - 1]
  {
    for i := 0 to n
      invariant forall j :: 0 <= j < i && j < index ==> dst[j] == src[j]
      invariant forall j :: index < j <= i ==> dst[j] == src[j - 1]
    {
      if i < index {
        dst[i] := src[i];
      } else {
        dst[i + 1] := src[i];
      }
    }
  }

  /** Move the entries from `index` on up by one. */
  method ShiftUp<T>(a: array<T>, n: nat, index: nat)
    requires index <= n < a.Length
    modifies a
    ensures forall j :: 0 <= j < index ==> a[j] == old(a[j])
    ensures forall j :: index < j <= n ==> a[j] == old(a[j - 1])
  {
    for i := n downto index
      invariant forall j :: 0 <= j < a.Length ==> a[j] == if i < j <= n then old(a[j - 1]) else old(a[j])
    {
      a[i + 1] := a[i];
    }
  }

  /** Open a gap at `index`, moving to larger arrays when the current ones are full. */
  method Expand(gn: Node, index: nat)
    requires gn.isGroup && 1 <= gn.cnt <= gn.cap && gn.cap == gn.subId.Length == gn.subPtr.Length && index <= gn.cnt
    requires Capacity(gn.cap) && (gn.cnt == gn.cap ==> gn.cap < GROUP_MAX)
    modifies gn`cap, gn`subId, gn`subPtr, gn.subId, gn.subPtr
    ensures Capacity(gn.cap) && gn.cap <= CAP_MAX
    ensures gn.cnt < gn.cap == gn.subId.Length == gn.subPtr.Length
    ensures (gn.subId == old(gn.subId) || fresh(gn.subId)) && (gn.subPtr == old(gn.subPtr) || fresh(gn.subPtr))
    ensures forall j :: 0 <= j < index ==> gn.subId[j] == old(gn.subId[j]) && gn.subPtr[j] == old(gn.subPtr[j])
    ensures forall j :: index < j <= gn.cnt ==>
      gn.subId[j] == old(gn.subId[j - 1]) && gn.subPtr[j] == old(gn.subPtr[j - 1])
  {
    GroupMaxIsExact(gn.cap);
    hide Capacity;
    if gn.cnt + 1 > gn.cap {
      GroupMaxIsExact(AllocNr(gn.cap));
      var subId := new nat[AllocNr(gn.cap)](_ => 0);
      var subPtr := new Node?[AllocNr(gn.cap)](_ => null);
      gn.cap := AllocNr(gn.cap);
      CopyApart(gn.subId, gn.cnt, subId, index);
      CopyApart(gn.subPtr, gn.cnt, subPtr, index);
      gn.subId := subId;
      gn.subPtr := subPtr;
    } else {
      ShiftUp(gn.subId, gn.cnt, index);
      ShiftUp(gn.subPtr, gn.cnt, index);
    }
  }

  /** Close the gap at `index`; a group left without children clears its first slot. */
  method Shrink(gn: Node, index: nat)
    requires gn.isGroup && index < gn.cnt <= gn.cap && gn.cap == gn.subId.Length == gn.subPtr.Length
    modifies gn`cnt, gn.subId, gn.subPtr
    ensures gn.cnt == old(gn.cnt) - 1
    ensures forall j :: 0 <= j < gn.cnt ==> gn.subId[j] == old(gn.subId[if j < index then j else j + 1])
    ensures forall j :: 0 <= j < gn.cnt ==> gn.subPtr[j] == old(gn.subPtr[if j < index then j else j + 1])
    ensures gn.cnt == 0 ==> gn.subId[0] == 0 && gn.subPtr[0] == null
  {
    if gn.cnt > 1 {
      for i := index to gn.cnt - 1
        modifies gn.subId, gn.subPtr
        invariant forall j :: 0 <= j < gn.cap ==>
          gn.subId[j] == if index <= j < i then old(gn.subId[j + 1]) else old(gn.subId[j])
        invariant forall j :: 0 <= j < gn.cap ==>
          gn.subPtr[j] == if index <= j < i then old(gn.subPtr[j + 1]) else old(gn.subPtr[j])
      {
        gn.subId[i] := gn.subId[i + 1];
        gn.subPtr[i] := gn.subPtr[i + 1];
      }
      gn.cnt := gn.cnt - 1;
    } else {
      gn.subId[0] := 0;
      gn.subPtr[0] := null;
      gn.cnt := 0;
    }
  }

  /** Write the child's sub-id and pointer at its place in the group's arrays. */
  method Slot(gn: Node, i: nat, x: nat, child: Node, ghost ids: seq<nat>)
    requires gn.Holds(Group(ids)) && i <= |ids|
    requires gn.cnt == gn.cap ==> gn.cap < GROUP_MAX
    modifies gn, gn.subId, gn.subPtr
    ensures gn.Holds(Group(InsertAt(ids, i, x)))
    ensures (gn.subId == old(gn.subId) || fresh(gn.subId)) && (gn.subPtr == old(gn.subPtr) || fresh(gn.subPtr))
    ensures gn.subPtr[..gn.cnt] == old(gn.subPtr[..i]) + [child] + old(gn.subPtr[i..gn.cnt])
  {
    hide InsertAt, Capacity;
    ghost var was, ptrs := gn.subId[..gn.cnt], gn.subPtr[..gn.cnt];
    assert ptrs[..i] == gn.subPtr[..i] && ptrs[i..] == gn.subPtr[i..gn.cnt];
    if gn.cnt == 0 && gn.subId[0] == 0 {
      gn.cnt := gn.cnt + 1;
      gn.subId[0] := x;
      gn.subPtr[0] := child;
      assert gn.subId[..1] == [x] && gn.subPtr[..1] == [child];
    } else {
      SlotIn(gn, i, x, child);
    }
    InsertAtIs(was, i, x);
  }

  lemma InsertAtIs(ids: seq<nat>, i: nat, x: nat)
    requires i <= |ids|
    ensures InsertAt(ids, i, x) == ids[..i] + [x] + ids[i..]
    ensures |InsertAt(ids, i, x)| == |ids| + 1
  {
  }

  /** Make room among the children and write the new one there. */
  method SlotIn(gn: Node, i: nat, x: nat, child: Node)
    requires gn.isGroup && i <= gn.cnt <= gn.cap && 1 <= gn.cnt && gn.cap == gn.subId.Length == gn.subPtr.Length
    requires Capacity(gn.cap) && (gn.cnt == gn.cap ==> gn.cap < GROUP_MAX)
    modifies gn`cnt, gn`cap, gn`subId, gn`subPtr, gn.subId, gn.subPtr
    ensures gn.cnt == old(gn.cnt) + 1 <= gn.cap == gn.subId.Length == gn.subPtr.Length && Capacity(gn.cap)
    ensures (gn.subId == old(gn.subId) || fresh(gn.subId)) && (gn.subPtr == old(gn.subPtr) || fresh(gn.subPtr))
    ensures gn.subId[..gn.cnt] == old(gn.subId[..gn.cnt])[..i] + [x] + old(gn.subId[..gn.cnt])[i..]
    ensures gn.subPtr[..gn.cnt] == old(gn.subPtr[..gn.cnt])[..i] + [child] + old(gn.subPtr[..gn.cnt])[i..]
  {
    hide Capacity;
    ghost var was, ptrs := gn.subId[..gn.cnt], gn.subPtr[..gn.cnt];
    Expand(gn, i);
    FillGap(gn.subId, gn.cnt, i, x, was);
    FillGap(gn.subPtr, gn.cnt, i, child, ptrs);
    gn.cnt := gn.cnt + 1;
  }

  /** Write the new entry into the gap. */
  method FillGap<T>(a: array<T>, n: nat, i: nat, x: T, ghost was: seq<T>)
    requires i <= n < a.Length && |was| == n
    requires forall j :: 0 <= j < i ==> a[j] == was[j]
    requires forall j :: i < j <= n ==> a[j] == was[j - 1]
    modifies a
    ensures a[..n + 1] == was[..i] + [x] + was[i..]
  {
    a[i] := x;
    Spread(was, a[..n + 1], i, x);
  }

  lemma Spread<T>(s: seq<T>, r: seq<T>, i: nat, x: T)
    requires i <= |s| && |r| == |s| + 1 && r[i] == x
    requires forall j :: 0 <= j < i ==> r[j] == s[j]
    requires forall j :: i < j < |r| ==> r[j] == s[j - 1]
    ensures r == s[..i] + [x] + s[i..]
  {
  }

  /** Apart from the one at `p`, the nodes are in place and owned by their paths. */
  ghost predicate OthersOk(at: map<Oid, Node>, t: Table, owner: Owners, p: Oid)
    reads set r | r in at && r != p :: at[r]
    reads set r | r in at && r != p :: at[r].subId
    reads set r | r in at && r != p :: at[r].subPtr
  {
    forall r {:trigger at[r]} :: r in at && r != p ==> r in t && at[r].Stores(r, t, at) && at[r].OwnedBy(r, owner)
  }

  /** Node `n` shares nothing with the nodes at other paths than `p`. */
  ghost predicate Separate(at: map<Oid, Node>, n: Node, p: Oid)
    reads n, set r | r in at && r != p :: at[r]
  {
    forall r {:trigger at[r]} :: r in at && r != p ==> at[r] != n && at[r].subId != n.subId && at[r].subPtr != n.subPtr
  }

  lemma OthersApart(tree: Tree, p: Oid)
    requires tree.Valid() && p in tree.at
    ensures OthersOk(tree.at, tree.table, tree.owner, p) && Separate(tree.at, tree.at[p], p)
    ensures tree.at[p].OwnedBy(p, tree.owner) && p in tree.table && tree.at[p].Stores(p, tree.table, tree.at)
  {
    assert tree.InPlace(p);
    forall r | r in tree.at && r != p
      ensures tree.InPlace(r)
    {
    }
  }

  /** Path `p` takes over node `n` with its arrays. */
  ghost function Claim(owner: Owners, n: Node, p: Oid): Owners
    reads n
  {
    Owners(owner.nodes[n := p], owner.idArrays[n.subId := p], owner.ptrArrays[n.subPtr := p])
  }

  lemma GrownGroup(t: Table, at: map<Oid, Node>, ptrs: seq<Node?>, child: Node, p: Oid, x: nat, e: Entry)
    requires p in t && t[p].Group? && at.Keys == t.Keys && Child(p, x) !in t
    requires at[p].Holds(Group(InsertAt(t[p].ids, Rank(t[p].ids, x), x)))
    requires |ptrs| == |t[p].ids| && forall i :: 0 <= i < |ptrs| ==>
      Child(p, t[p].ids[i]) in at && ptrs[i] == at[Child(p, t[p].ids[i])]
    requires var i := Rank(t[p].ids, x); at[p].subPtr[..at[p].cnt] == ptrs[..i] + [child] + ptrs[i..]
    ensures at[p].Stores(p, AddChild(t, p, x, e), at[Child(p, x) := child])
  {
    var ids, i, c := t[p].ids, Rank(t[p].ids, x), Child(p, x);
    var ids', at' := AddChild(t, p, x, e)[p].ids, at[c := child];
    forall j | 0 <= j < |ids'|
      ensures Child(p, ids'[j]) in at' && at[p].subPtr[j] == at'[Child(p, ids'[j])]
    {
      assert at[p].subPtr[j] == (ptrs[..i] + [child] + ptrs[i..])[j];
      if j < i {
        assert ids'[j] == ids[j];
      } else if j == i {
        assert ids'[j] == x;
      } else {
        assert ids'[j] == ids[j - 1];
        assert at[p].subPtr[j] == ptrs[j - 1];
      }
    }
  }

  /** A node that is neither the group nor its new child stays in place when the table and the owners grow. */
  lemma KeepsPlace(tree: Tree, t: Table, at: map<Oid, Node>, owner: Owners, child: Node, p: Oid, x: nat, e: Entry,
    r: Oid)
    requires p in t && t[p].Group? && at.Keys == t.Keys && Child(p, x) !in t && r in at && r != p
    requires tree.table == AddChild(t, p, x, e) && tree.at == at[Child(p, x) := child]
    requires tree.owner == Claim(Claim(owner, at[p], p), child, Child(p, x))
    requires OthersOk(at, t, owner, p) && Separate(at, at[p], p) && Separate(at, child, Child(p, x))
    ensures tree.InPlace(r)
  {
    hide Node.Holds;
    assert at[r].Stores(r, t, at) && at[r].OwnedBy(r, owner);
    assert at[r] != at[p] && at[r].subId != at[p].subId && at[r].subPtr != at[p].subPtr;
    assert at[r] != child && at[r].subId != child.subId && at[r].subPtr != child.subPtr;
  }

  /** The group and its new child are in place. */
  lemma TakesPlace(tree: Tree, at: map<Oid, Node>, owner: Owners, child: Node, p: Oid, c: Oid, e: Entry)
    requires p in at && c !in at && p in tree.table && c in tree.table && tree.table[c] == e
      && (e.Leaf? || e == Group([]))
    requires tree.at == at[c := child] && tree.owner == Claim(Claim(owner, at[p], p), child, c)
    requires at[p] != child && at[p].subId != child.subId && at[p].subPtr != child.subPtr
    requires at[p].Stores(p, tree.table, tree.at) && child.Holds(e)
    ensures tree.InPlace(p) && tree.InPlace(c)
  {
  }

  /** Growing one group by one childless node keeps the tree valid. */
  lemma GrownValid(tree: Tree, t: Table, at: map<Oid, Node>, owner: Owners, child: Node, p: Oid, x: nat, e: Entry)
    requires WellFormed(tree.table) && p in t && t[p].Group? && at.Keys == t.Keys && Child(p, x) !in t
      && (e.Leaf? || e == Group([]))
    requires tree.table == AddChild(t, p, x, e) && tree.at == at[Child(p, x) := child]
    requires tree.owner == Claim(Claim(owner, at[p], p), child, Child(p, x))
    requires OthersOk(at, t, owner, p) && Separate(at, at[p], p) && Separate(at, child, Child(p, x)) && child.Holds(e)
    requires at[p].Stores(p, tree.table, tree.at)
    requires [] in at && at[[]] == tree.root
    ensures tree.Valid()
  {
    hide OthersOk, WellFormed, InsertAt, Rank, Claim, Node.Holds, Node.Stores, Node.OwnedBy;
    TakesPlace(tree, at, owner, child, p, Child(p, x), e);
    hide Separate;
    forall r {:trigger tree.InPlace(r)} | r in tree.at
      ensures tree.InPlace(r)
    {
      if r != Child(p, x) && r != p {
        KeepsPlace(tree, t, at, owner, child, p, x, e, r);
      }
    }
  }

  lemma StoredPtrs(gn: Node, t: Table, at: map<Oid, Node>, p: Oid)
    requires p in t && t[p].Group? && gn.Stores(p, t, at)
    ensures gn.isGroup && gn.cnt == |t[p].ids| <= gn.subPtr.Length && gn.Holds(Group(t[p].ids))
    ensures forall i :: 0 <= i < gn.cnt ==> Child(p, t[p].ids[i]) in at && gn.subPtr[i] == at[Child(p, t[p].ids[i])]
  {
  }

  /** Fill the slot of group `at[p]`; the other nodes are not touched. */
  method FillSlot(gn: Node, i: nat, x: nat, child: Node, ghost t: Table, ghost at: map<Oid, Node>,
    ghost owner: Owners, ghost p: Oid, ghost e: Entry)
    requires at.Keys == t.Keys && p in at && gn == at[p] && t[p].Group? && Child(p, x) !in t && i == Rank(t[p].ids, x)
    requires gn.Stores(p, t, at) && (gn.cnt == gn.cap ==> gn.cap < GROUP_MAX)
    requires OthersOk(at, t, owner, p) && Separate(at, gn, p) && Separate(at, child, Child(p, x)) && child.Holds(e)
    modifies gn, gn.subId, gn.subPtr
    ensures gn.Stores(p, AddChild(t, p, x, e), at[Child(p, x) := child])
    ensures (gn.subId == old(gn.subId) || fresh(gn.subId)) && (gn.subPtr == old(gn.subPtr) || fresh(gn.subPtr))
    ensures OthersOk(at, t, owner, p) && Separate(at, gn, p) && Separate(at, child, Child(p, x)) && child.Holds(e)
  {
    hide OthersOk, AddChild, InsertAt, Rank, IdsSorted, Capacity, Node.OwnedBy, Node.Holds;
    StoredPtrs(gn, t, at, p);
    ghost var ptrs := gn.subPtr[..gn.cnt];
    hide Node.Stores;
    assert at[p] != child && at[p].subId != child.subId && at[p].subPtr != child.subPtr;
    Slot(gn, i, x, child, t[p].ids);
    assert OthersOk(at, t, owner, p) && Separate(at, gn, p) && Separate(at, child, Child(p, x));
    hide Separate;
    GrownGroup(t, at, ptrs, child, p, x, e);
  }

  /** The same, and any array that joins the tree is a new one. */
  method Refill(gn: Node, i: nat, x: nat, child: Node, ghost t: Table, ghost at: map<Oid, Node>, ghost owner: Owners,
    ghost p: Oid, ghost e: Entry)
    requires at.Keys == t.Keys && p in at && gn == at[p] && t[p].Group? && Child(p, x) !in t && i == Rank(t[p].ids, x)
    requires gn.Stores(p, t, at) && (gn.cnt == gn.cap ==> gn.cap < GROUP_MAX)
    requires OthersOk(at, t, owner, p) && Separate(at, gn, p) && Separate(at, child, Child(p, x)) && child.Holds(e)
    modifies gn, gn.subId, gn.subPtr
    ensures gn.Stores(p, AddChild(t, p, x, e), at[Child(p, x) := child])
    ensures (gn.subId == old(gn.subId) || fresh(gn.subId)) && (gn.subPtr == old(gn.subPtr) || fresh(gn.subPtr))
    ensures OthersOk(at, t, owner, p) && Separate(at, gn, p) && Separate(at, child, Child(p, x)) && child.Holds(e)
    ensures forall o :: o in PartsOf(at) && o !in old(PartsOf(at)) ==> fresh(o)
  {
    hide OthersOk, Separate, AddChild, Rank, Node.Holds, Node.Stores;
    FillSlot(gn, i, x, child, t, at, owner, p, e);
  }

  /** Enter the new node in the tree's abstract value. */
  ghost method Adopt(tree: Tree, child: Node, p: Oid, x: nat, e: Entry)
    requires tree.table.Keys == tree.at.Keys && p in tree.at && tree.table[p].Group? && Child(p, x) !in tree.table
      && (e.Leaf? || e == Group([]))
    requires WellFormed(AddChild(tree.table, p, x, e)) && [] in tree.at && tree.at[[]] == tree.root
    requires tree.at[p].Stores(p, AddChild(tree.table, p, x, e), tree.at[Child(p, x) := child])
    requires OthersOk(tree.at, tree.table, tree.owner, p) && Separate(tree.at, tree.at[p], p)
      && Separate(tree.at, child, Child(p, x)) && child.Holds(e)
    modifies tree
    ensures tree.Valid()
    ensures tree.table == AddChild(old(tree.table), p, x, e)
    ensures tree.at == old(tree.at)[Child(p, x) := child]
  {
    hide OthersOk, Separate, AddChild, WellFormed, Node.Stores, Tree.Valid;
    var t, at, owner, c := tree.table, tree.at, tree.owner, Child(p, x);
    tree.table, tree.at, tree.owner := AddChild(t, p, x, e), at[c := child], Claim(Claim(owner, at[p], p), child, c);
    GrownValid(tree, t, at, owner, child, p, x, e);
  }

  lemma PartsPlus(at: map<Oid, Node>, c: Oid, child: Node)
    ensures forall o :: o in PartsOf(at[c := child]) ==>
      o in PartsOf(at) || o == child || o == child.subId || o == child.subPtr
  {
  }

  /** Hang the new node `child` below group `gn`, which sits at path `p`. */
  method Attach(tree: Tree, gn: Node, i: nat, x: nat, child: Node, ghost p: Oid, ghost e: Entry)
    requires tree.Valid() && p in tree.at && gn == tree.at[p] && tree.table[p].Group?
    requires gn.cnt == gn.cap ==> gn.cap < GROUP_MAX
    requires x !in tree.table[p].ids && i == Rank(tree.table[p].ids, x) && x < ID_MODULUS
    requires Separate(tree.at, child, Child(p, x)) && child.Holds(e)
    requires e.Leaf? || (e == Group([]) && |p| + 1 < OID_MAX_LEN)
    modifies tree, gn, gn.subId, gn.subPtr
    ensures tree.Valid()
    ensures (gn.subId == old(gn.subId) || fresh(gn.subId)) && (gn.subPtr == old(gn.subPtr) || fresh(gn.subPtr))
    ensures forall o :: o in tree.Parts() && o !in old(tree.Parts()) ==>
      o == child || o == child.subId || o == child.subPtr || fresh(o)
    ensures tree.table == AddChild(old(tree.table), p, x, e)
    ensures tree.at == old(tree.at)[Child(p, x) := child]
  {
    hide Tree.Valid, OthersOk, Separate, AddChild, WellFormed, PartsOf;
    tree.RootAt();
    tree.NodeAt(p);
    OthersApart(tree, p);
    AddChildOk(tree.table, p, x, e);
    hide Node.Holds, Node.Stores, Node.OwnedBy;
    Refill(gn, i, x, child, tree.table, tree.at, tree.owner, p, e);
    PartsPlus(tree.at, Child(p, x), child);
    Adopt(tree, child, p, x, e);
  }

  lemma FreeHere(t: Table, oid: Oid, k: nat)
    requires WellFormed(t) && k < |oid| && oid[..k] in t && t[oid[..k]].Group? && oid[k] !in t[oid[..k]].ids
    ensures Free(t, oid) && Walk(t, oid, 0) == k && oid[..k + 1] !in t
  {
    var c := oid[..k];
    assert oid[..k + 1] == Child(c, oid[k]) && Parent(Child(c, oid[k])) == c;
    assert oid[..k + 1] in t ==> LinkOk(t, oid[..k + 1]);
    WalkReaches(t, c, oid);
    forall j | 0 <= j <= |oid| && oid[..j] in t
      ensures j <= k && t[oid[..j]].Group?
    {
      if j > k {
        assert oid[..j][..k + 1] == oid[..k + 1];
        PrefixIsNode(t, oid[..j], k + 1);
      } else if j < k {
        PrefixIsNode(t, c, j);
        assert c[..j] == oid[..j];
      }
    }
    assert oid[..|oid|] == oid;
  }

  lemma RegisteredIs(t: Table, oid: Oid, k: nat, cb: int)
    requires Free(t, oid) && [] in t && k < |oid| && Walk(t, oid, 0) == k && oid[..k] in t && t[oid[..k]].Group?
    ensures Registered(t, oid, cb) == Graft(t, oid, k, cb)
  {
  }

  /** No registration at the empty OID, at a node or below an instance. */
  lemma NotFree(t: Table, oid: Oid, k: nat)
    requires k <= |oid| && (oid == [] || |oid| > OID_MAX_LEN || (oid[..k] in t && (t[oid[..k]].Leaf? || k == |oid|)))
    ensures !(|oid| <= OID_MAX_LEN && Free(t, oid))
  {
    assert oid[..|oid|] == oid;
  }

  /**
   Look for a sub-id among a group's children: its position, or where it belongs. A group never filled is not
   searched.
   */
  method FindSub(tree: Tree, gn: Node, ghost c: Oid, id: nat) returns (i: nat, found: bool)
    requires tree.Valid() && c in tree.at && gn == tree.at[c] && gn.isGroup
    ensures c in tree.table && tree.table[c].Group?
    ensures found ==> i < gn.cnt <= gn.subPtr.Length && Child(c, id) in tree.at && gn.subPtr[i] == tree.at[Child(c, id)]
    ensures !found ==> id !in tree.table[c].ids && i == Rank(tree.table[c].ids, id)
  {
    hide Tree.Valid, Rank;
    tree.NodeAt(c);
    if gn.cnt == 0 && gn.subId[0] == 0 {
      RankIs([], id, 0);
      return 0, false;
    }
    var r := BinarySearch(gn.subId, gn.cnt, id);
    if r >= 0 {
      return r, true;
    }
    assert tree.table[c].ids == gn.subId[..gn.cnt];
    RankIs(tree.table[c].ids, id, -r - 1);
    return -r - 1, false;
  }

  lemma GraftStep(t: Table, oid: Oid, k: nat, cb: int)
    requires k < |oid| && oid[..k] in t && t[oid[..k]].Group?
    ensures oid[..k + 1] == Child(oid[..k], oid[k])
    ensures k + 1 == |oid| ==> Graft(t, oid, k, cb) == AddChild(t, oid[..k], oid[k], Leaf(cb))
    ensures k + 1 < |oid| ==> var t1 := AddChild(t, oid[..k], oid[k], Group([]));
      oid[..k + 1] in t1 && t1[oid[..k + 1]] == Group([]) && Graft(t, oid, k, cb) == Graft(t1, oid, k + 1, cb)
  {
    assert oid[..k + 1] == Child(oid[..k], oid[k]);
  }

  /**
   Put a new childless node below the group at path `oid[..k]`: the instance itself at the end of the OID, else a
   group.
   */
  method AddNode(tree: Tree, gn: Node, i: nat, oid: Oid, k: nat, callback: int) returns (child: Node)
    requires tree.Valid() && k < |oid| <= OID_MAX_LEN && Fits32(oid)
    requires oid[..k] in tree.at && gn == tree.at[oid[..k]] && oid[..k] in tree.table && tree.table[oid[..k]].Group?
    requires oid[k] !in tree.table[oid[..k]].ids && i == Rank(tree.table[oid[..k]].ids, oid[k])
    requires gn.cnt == gn.cap ==> gn.cap < GROUP_MAX
    modifies tree, gn, gn.subId, gn.subPtr
    ensures tree.Valid() && fresh(child) && fresh(child.subId) && fresh(child.subPtr)
      && (forall o :: o in tree.Parts() && o !in old(tree.Parts()) ==> fresh(o))
    ensures (gn.subId == old(gn.subId) || fresh(gn.subId)) && (gn.subPtr == old(gn.subPtr) || fresh(gn.subPtr))
    ensures tree.at == old(tree.at)[oid[..k + 1] := child]
    ensures k + 1 == |oid| ==> tree.table == Graft(old(tree.table), oid, k, callback)
    ensures k + 1 < |oid| ==>
      oid[..k + 1] in tree.table && tree.table[oid[..k + 1]] == Group([]) && child.cnt < child.cap
    ensures k + 1 < |oid| ==> Graft(old(tree.table), oid, k, callback) == Graft(tree.table, oid, k + 1, callback)
  {
    hide Tree.Valid, PartsOf, Graft, AddChild, Rank;
    GraftStep(tree.table, oid, k, callback);
    ghost var e := if k + 1 == |oid| then Leaf(callback) else Group([]);
    if k + 1 == |oid| {
      child := new Node.NewInstance(callback);
    } else {
      child := new Node.NewGroup();
    }
    assert Separate(tree.at, child, oid[..k + 1]);
    Attach(tree, gn, i, oid[k], child, oid[..k], e);
    if k + 1 < |oid| {
      tree.NodeAt(oid[..k + 1]);
    }
  }

  /** Follow the OID through existing groups to the one that lacks its next sub-id; none if it is taken or blocked. */
  method FindPlace(tree: Tree, oid: Oid) returns (place: Node?, k: nat, i: nat)
    requires tree.Valid() && 0 < |oid| <= OID_MAX_LEN
    ensures place == null ==> !Free(tree.table, oid)
    ensures place != null ==>
      k < |oid| && oid[..k] in tree.at && place == tree.at[oid[..k]] && oid[..k] in tree.table
        && tree.table[oid[..k]].Group?
    ensures place != null ==> oid[k] !in tree.table[oid[..k]].ids && i == Rank(tree.table[oid[..k]].ids, oid[k])
  {
    hide Tree.Valid, Rank, Free;
    tree.RootAt();
    assert oid[..0] == [];
    var node := tree.root;
    k, i := 0, 0;
    while k < |oid|
      invariant k <= |oid| && oid[..k] in tree.at && node == tree.at[oid[..k]]
    {
      tree.NodeAt(oid[..k]);
      if !node.isGroup {
        NotFree(tree.table, oid, k);
        return null, k, 0;
      }
      var found;
      i, found := FindSub(tree, node, oid[..k], oid[k]);
      if !found {
        return node, k, i;
      }
      assert oid[..k + 1] == Child(oid[..k], oid[k]);
      node := node.subPtr[i];
      k := k + 1;
    }
    tree.NodeAt(oid[..k]);
    NotFree(tree.table, oid, k);
    return null, k, 0;
  }

  /** From a new, empty group on, every remaining sub-id gets a new node. */
  method GrowPath(tree: Tree, start: Node, from: nat, oid: Oid, callback: int)
    requires tree.Valid() && from < |oid| <= OID_MAX_LEN && Fits32(oid) && oid[..from] in tree.at
      && start == tree.at[oid[..from]]
    requires oid[..from] in tree.table && tree.table[oid[..from]] == Group([]) && start.cnt < start.cap
    modifies tree, start, start.subId, start.subPtr
    ensures tree.Valid() && tree.table == Graft(old(tree.table), oid, from, callback)
      && (forall o :: o in tree.Parts() && o !in old(tree.Parts()) ==> fresh(o))
  {
    hide Tree.Valid, Tree.Parts, Graft, Rank;
    var node, k := start, from;
    while k < |oid|
      invariant tree.Valid() && k <= |oid| && (forall o :: o in tree.Parts() && o !in old(tree.Parts()) ==> fresh(o))
      invariant k == |oid| ==> tree.table == Graft(old(tree.table), oid, from, callback)
      invariant k < |oid| ==>
        && oid[..k] in tree.at && node == tree.at[oid[..k]] && oid[..k] in tree.table
        && tree.table[oid[..k]] == Group([]) && node.cnt < node.cap
      invariant k < |oid| ==> Graft(tree.table, oid, k, callback) == Graft(old(tree.table), oid, from, callback)
      invariant (node == start && node.subId == old(start.subId) && node.subPtr == old(start.subPtr)) ||
        (fresh(node) && fresh(node.subId) && fresh(node.subPtr))
    {
      RankIs([], oid[k], 0);
      node := AddNode(tree, node, 0, oid, k, callback);
      k := k + 1;
    }
  }

  /** Register an instance with its callback; missing groups on the way are created. */
  method Register(tree: Tree, oid: Oid, callback: int) returns (ok: bool)
    requires tree.Valid() && RoomFor(tree.table, oid) && Fits32(oid)
    modifies tree, tree.at.Values, set p | p in tree.at :: tree.at[p].subId, set p | p in tree.at :: tree.at[p].subPtr
    ensures tree.Valid() && (forall o :: o in tree.Parts() && o !in old(tree.Parts()) ==> fresh(o))
    ensures ok <==> |oid| <= OID_MAX_LEN && Free(old(tree.table), oid)
    ensures ok ==> [] in old(tree.table) && tree.table == Registered(old(tree.table), oid, callback)
    ensures !ok ==> tree.table == old(tree.table) && tree.at == old(tree.at)
  {
    hide Tree.Valid, Tree.Parts, Graft, Rank, Free, Registered;
    if |oid| == 0 || |oid| > OID_MAX_LEN {
      NotFree(tree.table, oid, 0);
      return false;
    }
    var place, k, i := FindPlace(tree, oid);
    if place == null {
      return false;
    }
    tree.RootAt();
    tree.NodeAt(oid[..k]);
    FreeHere(tree.table, oid, k);
    RegisteredIs(tree.table, oid, k, callback);
    var node := AddNode(tree, place, i, oid, k, callback);
    if k + 1 < |oid| {
      GrowPath(tree, node, k + 1, oid, callback);
    }
    return true;
  }
}
