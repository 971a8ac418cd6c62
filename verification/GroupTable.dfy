/** Building the index of a group from its scalars and tables, which come in no particular order. */
module GroupTable {
  import opened Oids
  import opened Asn1
  import opened MibTable
  import opened GroupIndex
  import opened GroupServe

  /** A scalar, or a table with its one entry: the columns and the dimensions of the row index. */
  datatype Object = Scalar | Tab(entry: nat, columns: seq<nat>, indexes: seq<seq<nat>>)

  datatype Member = Member(no: nat, obj: Object)

  ghost predicate Distinct(s: seq<nat>) {
    forall i, j :: 0 <= i < j < |s| ==> s[i] != s[j]
  }

  /**
   A table has distinct columns and at least one dimension of distinct rows; it may have no rows or no columns at
   all.
   */
  ghost predicate ObjectOk(o: Object) {
    o.Tab? ==>
      && Distinct(o.columns)
      && o.indexes != [] && forall i :: 0 <= i < |o.indexes| ==> Distinct(o.indexes[i])
  }

  /** The keys of a group are distinct. */
  ghost predicate GroupOk(g: seq<Member>) {
    && (forall i :: 0 <= i < |g| ==> ObjectOk(g[i].obj))
    && (forall i, j :: 0 <= i < j < |g| ==> g[i].no != g[j].no)
  }

  /** The names below one object: its number and 0 for a scalar; its number, entry, column and row for a table. */
  ghost predicate NameOf(m: Member, w: Oid) {
    match m.obj
    case Scalar => w == [m.no, 0]
    case Tab(entry, columns, indexes) =>
      && |w| == 3 + |indexes| && w[0] == m.no && w[1] == entry && w[2] in columns
      && forall i :: 0 <= i < |indexes| ==> w[3 + i] in indexes[i]
  }

  ghost predicate InGroup(g: seq<Member>, w: Oid) {
    exists i :: 0 <= i < |g| && NameOf(g[i], w)
  }

  /** Sorting: the same numbers in increasing order. */
  function Sort(s: seq<nat>): (r: seq<nat>)
    requires Distinct(s)
    ensures IdsSorted(r) && |r| == |s| && forall x :: x in r <==> x in s
  {
    if s == [] then []
    else
      var n := |s| - 1;
      assert s == s[..n] + [s[n]];
      Insert(Sort(s[..n]), s[n])
  }

  function Insert(s: seq<nat>, x: nat): (r: seq<nat>)
    requires IdsSorted(s) && x !in s
    ensures IdsSorted(r) && |r| == |s| + 1 && forall y :: y in r <==> y in s || y == x
  {
    if s == [] || x < s[0] then [x] + s
    else
      var r := Insert(s[1..], x);
      InsertedBehind(s, x, r);
      [s[0]] + r
  }

  lemma InsertedBehind(s: seq<nat>, x: nat, r: seq<nat>)
    requires IdsSorted(s) && s != [] && x !in s && s[0] <= x
    requires IdsSorted(r) && forall y :: y in r <==> y in s[1..] || y == x
    ensures IdsSorted([s[0]] + r) && forall y :: y in [s[0]] + r <==> y in s || y == x
  {
    assert s == [s[0]] + s[1..] && s[0] in s;
    forall j | 0 <= j < |r|
      ensures s[0] < r[j]
    {
      assert r[j] in r;
    }
  }

  /** The dimensions of a table: its number, its entry, the sorted columns and the sorted row indexes. */
  function TableBlock(no: nat, o: Object): (b: Block)
    requires o.Tab? && ObjectOk(o)
  {
    [[no], [o.entry], Sort(o.columns)] + seq(|o.indexes|, i requires 0 <= i < |o.indexes| => Sort(o.indexes[i]))
  }

  lemma TableBlockAt(no: nat, o: Object)
    requires o.Tab? && ObjectOk(o)
    ensures var b := TableBlock(no, o);
      && BlockOk(b) && |b| == 3 + |o.indexes| && b[0] == [no] && b[1] == [o.entry] && b[2] == Sort(o.columns)
      && forall i :: 3 <= i < |b| ==> b[i] == Sort(o.indexes[i - 3])
  {
    var b := TableBlock(no, o);
    assert forall i :: 3 <= i < |b| ==> b[i] == Sort(o.indexes[i - 3]);
  }

  lemma TableBlockNames(m: Member, w: Oid)
    requires m.obj.Tab? && ObjectOk(m.obj)
    ensures InBlock(TableBlock(m.no, m.obj), w) <==> NameOf(m, w)
  {
    var b, o := TableBlock(m.no, m.obj), m.obj;
    hide TableBlock, BlockOk;
    TableBlockAt(m.no, o);
    if InBlock(b, w) {
      forall i | 0 <= i < |o.indexes|
        ensures w[3 + i] in o.indexes[i]
      {
        assert w[3 + i] in b[3 + i];
      }
    }
    if NameOf(m, w) {
      forall i | 3 <= i < |w|
        ensures w[i] in b[i]
      {
        assert w[3 + (i - 3)] in o.indexes[i - 3];
      }
    }
  }

  ghost predicate ScalarName(sc: seq<nat>, w: Oid) {
    |w| == 2 && w[0] in sc && w[1] == 0
  }

  ghost predicate NamesAre(bs: seq<Block>, sc: seq<nat>, g: seq<Member>) {
    forall w :: InBlocks(bs, w) || ScalarName(sc, w) <==> InGroup(g, w)
  }

  /**
   The blocks are in order; those from `i` on are tables, still to be compared with the scalars `sc`, which all
   follow the blocks before `i`.
   */
  ghost predicate Woven(bs: seq<Block>, i: nat, sc: seq<nat>) {
    && i <= |bs| && BlocksOk(bs) && (forall k :: 0 <= k < |bs| ==> Shaped(bs[k]))
    && (forall k :: i <= k < |bs| ==> |bs[k][0]| == 1 && bs[k][0][0] !in sc)
    && (forall k, x, y :: 0 <= k < i && x in bs[k][0] && y in sc ==> x < y)
  }

  lemma InBlocksInsert(bs: seq<Block>, i: nat, b: Block, w: Oid)
    requires i <= |bs|
    ensures InBlocks(bs[..i] + [b] + bs[i..], w) <==> InBlocks(bs, w) || InBlock(b, w)
  {
    var r := bs[..i] + [b] + bs[i..];
    if InBlock(b, w) {
      assert InBlock(r[i], w);
    }
    if InBlocks(bs, w) {
      var k :| 0 <= k < |bs| && InBlock(bs[k], w);
      assert bs[k] == r[if k < i then k else k + 1];
    }
    if InBlocks(r, w) {
      var k :| 0 <= k < |r| && InBlock(r[k], w);
      assert k == i || r[k] == bs[if k < i then k else k - 1];
    }
  }

  lemma BlocksInsert(bs: seq<Block>, i: nat, b: Block)
    requires i <= |bs| && BlocksOk(bs) && BlockOk(b)
    requires forall k, x, y :: 0 <= k < i && x in bs[k][0] && y in b[0] ==> x < y
    requires forall k, x, y :: i <= k < |bs| && x in b[0] && y in bs[k][0] ==> x < y
    ensures BlocksOk(bs[..i] + [b] + bs[i..])
  {
    var r := bs[..i] + [b] + bs[i..];
    assert forall k :: 0 <= k < |r| ==> r[k] == if k < i then bs[k] else if k == i then b else bs[k - 1];
  }

  lemma InGroupStep(g: seq<Member>, k: nat, w: Oid)
    requires k < |g|
    ensures InGroup(g[..k + 1], w) <==> InGroup(g[..k], w) || NameOf(g[k], w)
  {
    if InGroup(g[..k + 1], w) {
      var i :| 0 <= i < k + 1 && NameOf(g[..k + 1][i], w);
      assert i < k ==> g[..k][i] == g[i];
    }
    if InGroup(g[..k], w) {
      var i :| 0 <= i < k && NameOf(g[..k][i], w);
      assert g[..k + 1][i] == g[i];
    }
    if NameOf(g[k], w) {
      assert g[..k + 1][k] == g[k];
    }
  }

  /** Put one table among the tables, which are kept in order of their numbers. */
  method AddTable(bs: seq<Block>, b: Block) returns (r: seq<Block>)
    requires Woven(bs, 0, []) && BlockOk(b) && Shaped(b) && |b[0]| == 1
    requires forall k :: 0 <= k < |bs| ==> bs[k][0][0] != b[0][0]
    ensures Woven(r, 0, [])
    ensures forall w :: InBlocks(r, w) <==> InBlocks(bs, w) || InBlock(b, w)
    ensures forall k :: 0 <= k < |r| ==> r[k] == b || r[k] in bs
  {
    var i := 0;
    while i < |bs| && bs[i][0][0] < b[0][0]
      invariant i <= |bs|
      invariant forall k :: 0 <= k < i ==> bs[k][0][0] < b[0][0]
    {
      i := i + 1;
    }
    r := bs[..i] + [b] + bs[i..];
    forall k | i < k < |bs|
      ensures bs[i][0][0] < bs[k][0][0]
    {
      assert bs[i][0][0] in bs[i][0] && bs[k][0][0] in bs[k][0];
    }
    BlocksInsert(bs, i, b);
    forall w
      ensures InBlocks(r, w) <==> InBlocks(bs, w) || InBlock(b, w)
    {
      InBlocksInsert(bs, i, b, w);
    }
  }

  /** The first pass over the group: tables in order, scalar numbers as they come. */
  method Collect(g: seq<Member>) returns (bs: seq<Block>, sc: seq<nat>)
    requires GroupOk(g)
    ensures Woven(bs, 0, sc) && Distinct(sc) && NamesAre(bs, sc, g)
  {
    hide InGroup, InBlocks, NameOf;
    bs, sc := [], [];
    ghost var seen: set<nat> := {};
    EmptyNames();
    for n := 0 to |g|
      invariant seen == set i | 0 <= i < n :: g[i].no
      invariant Woven(bs, 0, sc) && Distinct(sc) && NamesAre(bs, sc, g[..n])
      invariant forall k :: 0 <= k < |bs| ==> bs[k][0][0] in seen
      invariant forall x :: x in sc ==> x in seen
    {
      var no := g[n].no;
      assert no !in seen;
      ghost var bs0, sc0 := bs, sc;
      if g[n].obj.Tab? {
        var b := TableBlock(no, g[n].obj);
        TableBlockAt(no, g[n].obj);
        bs := AddTable(bs, b);
      } else {
        sc := sc + [no];
      }
      forall w
        ensures InBlocks(bs, w) || ScalarName(sc, w) <==> InGroup(g[..n + 1], w)
      {
        OneMore(g, n, bs0, sc0, bs, sc, w);
      }
      seen := seen + {no};
    }
    assert g[..|g|] == g;
  }

  lemma EmptyNames()
    ensures NamesAre([], [], [])
  {
  }

  lemma OneMore(g: seq<Member>, n: nat, bs0: seq<Block>, sc0: seq<nat>, bs: seq<Block>, sc: seq<nat>, w: Oid)
    requires n < |g| && ObjectOk(g[n].obj) && NamesAre(bs0, sc0, g[..n])
    requires g[n].obj.Tab? ==>
      sc == sc0 && (InBlocks(bs, w) <==> InBlocks(bs0, w) || InBlock(TableBlock(g[n].no, g[n].obj), w))
    requires g[n].obj.Scalar? ==> bs == bs0 && sc == sc0 + [g[n].no]
    ensures InBlocks(bs, w) || ScalarName(sc, w) <==> InGroup(g[..n + 1], w)
  {
    hide InBlocks, InGroup;
    InGroupStep(g, n, w);
    if g[n].obj.Tab? {
      TableBlockNames(g[n], w);
    }
  }

  /** The scalars before a table become a block of their own in front of it. */
  lemma Splice(bs: seq<Block>, i: nat, sc: seq<nat>, j: nat)
    requires Woven(bs, i, sc) && IdsSorted(sc) && 0 < j <= |sc|
    requires i < |bs| ==> sc[j - 1] < bs[i][0][0]
    ensures BlocksOk(bs[..i] + [[sc[..j], [0]]] + bs[i..])
    ensures forall w :: InBlocks(bs[..i] + [[sc[..j], [0]]] + bs[i..], w) || ScalarName(sc[j..], w) <==>
      InBlocks(bs, w) || ScalarName(sc, w)
  {
    var b := [sc[..j], [0]];
    assert forall x :: x in sc <==> x in sc[..j] || x in sc[j..];
    forall k, x, y | i <= k < |bs| && x in b[0] && y in bs[k][0]
      ensures x < y
    {
      assert x <= sc[j - 1];
      assert bs[i][0][0] in bs[i][0];
    }
    BlocksInsert(bs, i, b);
    forall w
      ensures InBlocks(bs[..i] + [b] + bs[i..], w) || ScalarName(sc[j..], w) <==> InBlocks(bs, w) || ScalarName(sc, w)
    {
      InBlocksInsert(bs, i, b, w);
      assert InBlock(b, w) <==> ScalarName(sc[..j], w);
    }
  }

  /** After a table and the scalars in front of it, the search for scalars goes on behind both. */
  lemma StepOn(bs: seq<Block>, i: nat, sc: seq<nat>, j: nat)
    requires Woven(bs, i, sc) && IdsSorted(sc) && i < |bs| && j <= |sc|
    requires forall k :: 0 <= k < j ==> sc[k] <= bs[i][0][0]
    requires j < |sc| ==> bs[i][0][0] < sc[j]
    ensures IdsSorted(sc[j..])
    ensures j == 0 ==> Woven(bs, i + 1, sc)
    ensures j > 0 ==> sc[j - 1] < bs[i][0][0]
    ensures j > 0 ==> Woven(bs[..i] + [[sc[..j], [0]]] + bs[i..], i + 2, sc[j..])
  {
    assert forall y :: y in sc[j..] ==> bs[i][0][0] < y;
    if j == 0 {
      assert sc[j..] == sc;
    } else {
      assert sc[j - 1] in sc;
      Splice(bs, i, sc, j);
      var r := bs[..i] + [[sc[..j], [0]]] + bs[i..];
      assert forall k :: 0 <= k < |r| ==> r[k] == if k < i then bs[k] else if k == i then [sc[..j], [0]] else bs[k - 1];
    }
  }

  lemma SameScalars(bs: seq<Block>, sc: seq<nat>, sc': seq<nat>, g: seq<Member>)
    requires NamesAre(bs, sc, g) && forall x :: x in sc <==> x in sc'
    ensures NamesAre(bs, sc', g)
  {
    assert forall w :: ScalarName(sc, w) <==> ScalarName(sc', w);
  }

  /** The index of a group: its blocks are in order and their tuples are exactly the names of the group's variables. */
  method Generate(g: seq<Member>) returns (bs: seq<Block>)
    requires GroupOk(g)
    ensures BlocksOk(bs) && forall k :: 0 <= k < |bs| ==> Shaped(bs[k])
    ensures forall w :: InBlocks(bs, w) <==> InGroup(g, w)
  {
    hide InGroup, InBlocks;
    var sc;
    bs, sc := Collect(g);
    SameScalars(bs, sc, Sort(sc), g);
    sc := Sort(sc);
    var i := 0;
    while i < |bs|
      invariant Woven(bs, i, sc) && IdsSorted(sc) && NamesAre(bs, sc, g)
      decreases |bs| - i
    {
      var tab := bs[i][0][0];
      var j := 0;
      while j < |sc| && sc[j] <= tab
        invariant j <= |sc|
        invariant forall k :: 0 <= k < j ==> sc[k] <= tab
      {
        j := j + 1;
      }
      StepOn(bs, i, sc, j);
      if j > 0 {
        Splice(bs, i, sc, j);
        bs := bs[..i] + [[sc[..j], [0]]] + bs[i..];
        i := i + 1;
        sc := sc[j..];
      }
      i := i + 1;
    }
    if sc != [] {
      Splice(bs, i, sc, |sc|);
      ghost var was := bs;
      bs := bs + [[sc, [0]]];
      assert was[..i] == was && was[i..] == [] && sc[..|sc|] == sc;
      assert bs == was[..i] + [[sc[..|sc|], [0]]] + was[i..];
      sc := sc[|sc|..];
    }
    AllScalarsPlaced(bs, sc, g);
  }

  lemma AllScalarsPlaced(bs: seq<Block>, sc: seq<nat>, g: seq<Member>)
    requires NamesAre(bs, sc, g) && sc == []
    ensures forall w :: InBlocks(bs, w) <==> InGroup(g, w)
  {
    forall w
      ensures InBlocks(bs, w) <==> InGroup(g, w)
    {
      assert !ScalarName(sc, w);
    }
  }

  /** `r` is the least name of the group after `req` that can be read; the empty OID says there is none. */
  ghost predicate IsNextInGroup(g: seq<Member>, get: Oid -> Option<Value>, req: Oid, r: Oid) {
    if r == [] then forall w :: InGroup(g, w) && get(w).Some? ==> !Less(req, w)
    else
      && InGroup(g, r) && get(r).Some? && Less(req, r)
      && forall w :: InGroup(g, w) && get(w).Some? && Less(req, w) ==> Le(r, w)
  }

  /** Nothing that can be read lies between a variable that cannot and row 0 of the column after it. */
  ghost predicate HidesCleanly(g: seq<Member>, get: Oid -> Option<Value>) {
    forall v, w :: InGroup(g, v) && InGroup(g, w) && get(v).None? && Less(v, w) && Le(w, Bump(v)) ==> get(w).None?
  }

  lemma CleanSkips(g: seq<Member>, get: Oid -> Option<Value>, names: seq<Oid>)
    requires Increasing(names) && (forall w :: w in names <==> InGroup(g, w)) && HidesCleanly(g, get)
    ensures SkipsOnlyHidden(names, Shown(get))
  {
    hide InGroup, Less, Bump;
    forall i, j | 0 <= i < j < |names| && !Shown(get)(names[i]) && Le(names[j], Bump(names[i]))
      ensures !Shown(get)(names[j])
    {
      assert names[i] in names && names[j] in names;
    }
  }

  lemma GroupNameNotEmpty(g: seq<Member>, w: Oid)
    requires InGroup(g, w)
    ensures w != []
  {
  }

  /**
   The handler of a group, from the declaration of its objects and the values they give to the answer. A group that
   hides cleanly answers with the least variable after the request that can be read.
   */
  method AnswerNext(g: seq<Member>, get: Oid -> Option<Value>, req: Oid) returns (r: Oid, ghost bs: seq<Block>)
    requires GroupOk(g)
    ensures BlocksOk(bs) && (forall w :: InBlocks(bs, w) <==> InGroup(g, w))
    ensures Increasing(Names(bs)) && r == Serve(Names(bs), Shown(get), req)
    ensures HidesCleanly(g, get) ==> IsNextInGroup(g, get, req, r)
  {
    hide InGroup, InBlocks, GroupOk, BlocksOk, Names, Serve, HidesCleanly, SkipsOnlyHidden, Less;
    var blocks := Generate(g);
    bs := blocks;
    r := GroupNext(blocks, Shown(get), req);
    ListsNames(bs);
    if HidesCleanly(g, get) {
      CleanSkips(g, get, Names(bs));
      forall i | 0 <= i < |Names(bs)|
        ensures Names(bs)[i] != []
      {
        assert Names(bs)[i] in Names(bs);
        GroupNameNotEmpty(g, Names(bs)[i]);
      }
      ServesHidden(Names(bs), Shown(get), req);
      NextInGroup(g, get, Names(bs), req, r);
    }
  }

  lemma NextInGroup(g: seq<Member>, get: Oid -> Option<Value>, names: seq<Oid>, req: Oid, r: Oid)
    requires (forall w :: w in names <==> InGroup(g, w)) && IsNextReadable(names, Shown(get), req, r)
    ensures IsNextInGroup(g, get, req, r)
  {
    hide InGroup, Less;
  }
}
