/**
 The MIB tree in memory: group nodes with parallel, growable arrays of sub-ids and children,
 and the two searches over it. A ghost table gives the tree's abstract value.
 */
module MibTree {
  import opened Oids
  import opened Asn1
  import opened MibTable
  import opened NextSearch

  const CAP_MAX: nat := 65535

  /** The growth policy of the sub-id arrays. */
  function AllocNr(x: nat): nat {
    (x + 2) * 3 / 2
  }

  /** The capacities a group goes through, the last one being the largest that fits its 16-bit field. */
  predicate Capacity(c: nat) {
    c in {1, 4, 9, 16, 27, 43, 67, 103, 157, 238, 360, 543, 817, 1228, 1845, 2770, 4158, 6240, 9363, 14047, 21073,
      31612, 47421}
  }

  /** The largest number of children a group can hold. */
  const GROUP_MAX: nat := 47421

  /** A full group can grow within the capacity field if and only if it has fewer children than the most it can hold. */
  lemma GroupMaxIsExact(c: nat)
    requires Capacity(c)
    ensures AllocNr(c) <= CAP_MAX <==> c < GROUP_MAX
    ensures c < GROUP_MAX ==> Capacity(AllocNr(c))
    ensures 1 <= c <= GROUP_MAX
  {
  }

  /** A group node or an instance node, told apart by its type tag. */
  class Node {
    const isGroup: bool
    const callback: int
    var cap: nat
    var cnt: nat
    var subId: array<nat>
    var subPtr: array<Node?>

    constructor NewGroup()
      ensures isGroup && Holds(Group([]))
      ensures fresh(subId) && fresh(subPtr) && cap == 1
    {
      isGroup, callback := true, 0;
      cap, cnt := 1, 0;
      subId := new nat[1](_ => 0);
      subPtr := new Node?[1](_ => null);
    }

    constructor NewInstance(callback: int)
      ensures !isGroup && Holds(Leaf(callback))
      ensures fresh(subId) && fresh(subPtr)
    {
      isGroup, this.callback := false, callback;
      cap, cnt := 0, 0;
      subId := new nat[0];
      subPtr := new Node?[0];
    }

    /** The node stores exactly `e`; an emptied group has its first slot cleared. */
    ghost predicate Holds(e: Entry)
      reads this, subId, subPtr
    {
      match e
      case Group(ids) =>
        && isGroup
        && cnt == |ids|
        && cnt <= cap && 1 <= cap && Capacity(cap) && cap == subId.Length == subPtr.Length
        && subId[..cnt] == ids
        && (cnt == 0 ==> subId[0] == 0 && subPtr[0] == null)
      case Leaf(cb) => !isGroup && callback == cb
    }

    ghost predicate OwnedBy(p: Oid, o: Owners)
      reads this
    {
      && this in o.nodes && o.nodes[this] == p
      && subId in o.idArrays && o.idArrays[subId] == p
      && subPtr in o.ptrArrays && o.ptrArrays[subPtr] == p
    }

    /** As the node of path `p` it holds its table entry, and its child pointers lead to its children. */
    ghost predicate Stores(p: Oid, table: Table, at: map<Oid, Node>)
      requires p in table
      reads this, subId, subPtr
    {
      && Holds(table[p])
      && (table[p].Group? ==> forall i :: 0 <= i < |table[p].ids| ==>
            Child(p, table[p].ids[i]) in at && subPtr[i] == at[Child(p, table[p].ids[i])])
    }
  }

  /** The path each node and each array belongs to. */
  datatype Owners = Owners(nodes: map<Node, Oid>, idArrays: map<array<nat>, Oid>, ptrArrays: map<array<Node?>, Oid>)

  /** A node put aside by a traversal, with the index of the child to visit next. */
  datatype Backlog = Backlog(node: Node?, nIdx: int)

  /** Push onto a backlog of fixed size; when it is full the entry is silently dropped. */
  function Push(stk: seq<Backlog>, b: Backlog): (r: seq<Backlog>)
    ensures |stk| < OID_MAX_LEN <==> r == stk + [b]
    ensures |stk| <= OID_MAX_LEN ==> |r| <= OID_MAX_LEN
  {
    if |stk| < OID_MAX_LEN then stk + [b] else stk
  }

  /** Index of `id` among the first `n` sorted sub-ids, or minus its insertion point minus one. */
  method BinarySearch(arr: array<nat>, n: nat, id: nat) returns (r: int)
    requires n <= arr.Length && IdsSorted(arr[..n])
    ensures r >= 0 ==> r < n && arr[r] == id
    ensures r < 0 ==> 0 <= -r - 1 <= n && id !in arr[..n]
    ensures r < 0 ==> forall j :: 0 <= j < -r - 1 ==> arr[j] < id
    ensures r < 0 ==> forall j :: -r - 1 <= j < n ==> id < arr[j]
  {
    var low, high := -1, n;
    while low + 1 < high
      invariant -1 <= low < high <= n
      invariant forall j :: 0 <= j <= low ==> arr[j] <= id
      invariant forall j :: high <= j < n ==> id < arr[j]
    {
      var mid := low + (high - low) / 2;
      assert forall j :: 0 <= j < n ==> arr[j] == arr[..n][j];
      if arr[mid] > id {
        high := mid;
      } else {
        low := mid;
      }
    }
    assert forall j :: 0 <= j < n ==> arr[j] == arr[..n][j];
    if low < 0 || arr[low] != id {
      return -low - 2;
    } else {
      return low;
    }
  }

  /** What a GET or SET search reports. */
  datatype Answer = Got(value: Value) | Stored | Refused | NoSuchObject | NoSuchInstance

  /** SET carries the handlers' verdict on storing under a callback and suffix. */
  datatype Request = Get | Set(accepts: (int, Oid) -> bool)

  datatype Call = Call(callback: int, suffix: Oid)

  /** What a GETNEXT search reports; the end of the view repeats the request. */
  datatype NextAnswer = Found(oid: Oid, value: Value) | EndOfMibView(oid: Oid)
  {
    function Name(): Option<Oid> {
      if Found? then Some(oid) else None
    }
  }

  ghost function PartsOf(at: map<Oid, Node>): set<object>
    reads at.Values`subId, at.Values`subPtr
  {
    at.Values + (set p | p in at :: at[p].subId as object) + (set p | p in at :: at[p].subPtr as object)
  }

  class Tree {
    const root: Node
    ghost var table: Table
    ghost var at: map<Oid, Node>
    ghost var owner: Owners

    /** The node at path `p` is as the table says, and it and its arrays belong to that path only. */
    ghost predicate InPlace(p: Oid)
      requires p in at
      reads this, at[p], at[p].subId, at[p].subPtr
    {
      p in table && at[p].Stores(p, table, at) && at[p].OwnedBy(p, owner)
    }

    ghost predicate Valid()
      reads this, at.Values, set p | p in at :: at[p].subId, set p | p in at :: at[p].subPtr
    {
      && WellFormed(table)
      && at.Keys == table.Keys
      && at[[]] == root
      && (forall p {:trigger InPlace(p)} :: p in at ==> InPlace(p))
    }

    /** All nodes of the tree and their arrays. */
    ghost function Parts(): set<object>
      reads this, at.Values
    {
      PartsOf(at)
    }

    constructor ()
      ensures Valid() && fresh(Parts())
      ensures table == map[[] := Group([])]
    {
      var r := new Node.NewGroup();
      root := r;
      table := map[[] := Group([])];
      at := map[[] := r];
      owner := Owners(map[r := []], map[r.subId := []], map[r.subPtr := []]);
    }

    /** The array is none of the tree's own. */
    ghost predicate Apart(buf: array<nat>)
      reads this, at.Values
    {
      forall p {:trigger at[p]} :: p in at ==> at[p].subId != buf
    }

    /** Everything a traversal needs to know about the node at path `c`. */
    lemma NodeAt(c: Oid)
      requires Valid() && c in at
      ensures c in table && at[c].Holds(table[c]) && NodeOk(table, c) && WellFormed(table)
      ensures table[c].Group? ==> forall i :: 0 <= i < at[c].cnt ==>
        Child(c, at[c].subId[i]) in at && at[c].subPtr[i] == at[Child(c, at[c].subId[i])]
    {
      assert InPlace(c) && NodeOk(table, c);
    }

    lemma RootAt()
      requires Valid()
      ensures [] in at && at[[]] == root && at.Keys == table.Keys
    {
    }

    /** Search for an exact name; the node returned is the deepest one on the way to it. */
    method Search(view: Oid, orig: Oid, request: Request, lua: Lua)
      returns (node: Node?, depth: nat, r: Answer, calls: seq<Call>)
      requires Valid() && Served(table, lua)
      requires Fits32(view) && Fits32(orig) && |view| < ID_HALF && |orig| < ID_HALF
      ensures !(view <= orig) ==> node == null && r == NoSuchObject && calls == []
      ensures view <= orig ==> depth == Walk(table, orig, 0) && orig[..depth] in at && node == at[orig[..depth]]
      ensures request.Get? ==> (r.Got? <==> view <= orig && IsVar(table, lua, orig))
      ensures r.Got? ==> Lookup(table, lua, orig) == Some(r.value)
      ensures r.Got? ==> request.Get?
      ensures view <= orig && request.Get? && !r.Got? ==>
        r == if table[orig[..depth]].Leaf? then NoSuchInstance else NoSuchObject
      ensures calls != [] <==> view <= orig && depth < |orig| && table[orig[..depth]].Leaf?
      ensures calls != [] ==> calls == [Call(table[orig[..depth]].callback, orig[depth..])]
      ensures r.Stored? ==> request.Set? && calls != [] && request.accepts(calls[0].callback, calls[0].suffix)
      ensures request.Set? && calls != [] ==> (r.Stored? <==> request.accepts(calls[0].callback, calls[0].suffix))
      ensures view <= orig && request.Set? && !r.Stored? ==>
        r == if calls != [] then Refused else if table[orig[..depth]].Leaf? then NoSuchInstance else NoSuchObject
    {
      hide Valid;
      calls := [];
      var cover := OidCover(view, orig);
      if cover <= 0 {
        return null, 0, NoSuchObject, [];
      }
      node := root;
      depth := 0;
      assert orig[..0] == [];
      RootAt();
      while node != null && depth < |orig|
        invariant depth <= |orig| && orig[..depth] in at && node == at[orig[..depth]]
        invariant Walk(table, orig, 0) == Walk(table, orig, depth)
        decreases |orig| - depth
      {
        ghost var c := orig[..depth];
        NodeAt(c);
        if node.isGroup {
          var i := BinarySearch(node.subId, node.cnt, orig[depth]);
          assert orig[..depth + 1] == Child(c, orig[depth]);
          if i >= 0 {
            assert table[c].ids[i] == orig[depth];
            node := node.subPtr[i];
            depth := depth + 1;
          } else {
            assert orig[..depth + 1] !in table by {
              assert Parent(Child(c, orig[depth])) == c;
              assert Child(c, orig[depth]) in table ==> LinkOk(table, Child(c, orig[depth]));
            }
            r := NoSuchObject;
            return;
          }
        } else {
          WalkStopsAtLeaf(table, c, orig);
          calls := [Call(node.callback, orig[depth..])];
          if request.Get? {
            var got := HandlerGet(lua[node.callback], orig[depth..]);
            r := if got.Some? then Got(got.value) else NoSuchInstance;
          } else {
            r := if request.accepts(node.callback, orig[depth..]) then Stored else Refused;
          }
          return;
        }
      }
      assert orig[..depth] == orig;
      NodeAt(orig);
      if !node.isGroup {
        NoEmptySuffix(lua[node.callback]);
        assert orig[depth..] == [];
        r := NoSuchInstance;
      } else {
        r := NoSuchObject;
      }
    }

    /**
     The groups a traversal has put aside, one for each sub-id between its start and position `c`.
     A group left behind at its last child is forgotten, unless the traversal is to `keep` it.
     */
    ghost predicate Stacked(base: nat, c: Oid, stk: seq<Backlog>, keep: bool)
      reads this
    {
      && base + |stk| == |c|
      && forall j :: 0 <= j < |stk| ==> EntryAt(c[..base + j], c[base + j], stk[j], keep)
    }

    ghost predicate EntryAt(p: Oid, x: nat, b: Backlog, keep: bool)
      reads this
    {
      && EntryOk(table, p, x, b.nIdx)
      && if b.nIdx == -1 && !keep then b.node == null else p in at && b.node == at[p]
    }

    lemma PushEntry(base: nat, c: Oid, x: nat, stk: seq<Backlog>, b: Backlog, keep: bool)
      requires Stacked(base, c, stk, keep) && EntryAt(c, x, b, keep)
      ensures Stacked(base, Child(c, x), stk + [b], keep)
    {
      var d := Child(c, x);
      forall j | 0 <= j < |stk + [b]|
        ensures EntryAt(d[..base + j], d[base + j], (stk + [b])[j], keep)
      {
        assert d[..base + j] == c[..base + j];
        if j == |stk| {
          assert c[..base + j] == c;
        }
      }
    }

    lemma PopEntry(base: nat, c: Oid, stk: seq<Backlog>, keep: bool)
      requires Stacked(base, c, stk, keep) && stk != []
      ensures |stk| == |c| - base && c == Child(Parent(c), Last(c))
      ensures Stacked(base, Parent(c), stk[..|stk| - 1], keep)
      ensures EntryAt(Parent(c), Last(c), stk[|stk| - 1], keep)
    {
      var d, s := Parent(c), stk[..|stk| - 1];
      assert EntryAt(c[..base + |s|], c[base + |s|], stk[|s|], keep);
      forall j | 0 <= j < |s|
        ensures EntryAt(d[..base + j], d[base + j], s[j], keep)
      {
        assert d[..base + j] == c[..base + j];
        assert EntryAt(c[..base + j], c[base + j], stk[j], keep);
      }
    }

    /** Below a group of the tree, whose depth is less than 64, a push is never dropped. */
    lemma PushLands(base: nat, c: Oid, stk: seq<Backlog>, b: Backlog, keep: bool)
      requires Valid() && c in table && table[c].Group? && Stacked(base, c, stk, keep)
      ensures Push(stk, b) == stk + [b] && |Push(stk, b)| <= OID_MAX_LEN
    {
      assert NodeOk(table, c);
    }

    lemma AllPopped(base: nat, c: Oid, keep: bool)
      requires Stacked(base, c, [], keep)
      ensures |c| == base
    {
    }

    lemma NoEntries(c: Oid, keep: bool)
      ensures Stacked(|c|, c, [], keep)
    {
    }
  }

  lemma {:induction false} NoEmptySuffix(h: Handler)
    requires HandlerOk(h)
    ensures HandlerGet(h, []).None?
  {
    if h != [] {
      NoEmptySuffix(h[1..]);
    }
  }

  method WriteOid(buf: array<nat>, k: nat, o: Oid)
    requires k + |o| <= buf.Length
    modifies buf
    ensures k == 0 ==> buf[..|o|] == o
    ensures buf[..k] == old(buf[..k]) && buf[k + |o|..] == old(buf[k + |o|..])
    ensures buf[..k + |o|] == old(buf[..k]) + o
  {
    for i := 0 to |o|
      invariant forall j :: 0 <= j < buf.Length ==> buf[j] == if k <= j < k + i then o[j - k] else old(buf[j])
    {
      buf[k + i] := o[i];
    }
  }
}
