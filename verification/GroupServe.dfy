/**
 What a group answers to GETNEXT: the names of its blocks in order, the search through the blocks, and the retries
 after a variable that cannot be read.
 */
module GroupServe {
  import opened Oids
  import opened Asn1
  import opened MibTable
  import opened GroupIndex

  // ---------- The names of a group, listed in order

  function Prefixed(x: nat, ts: seq<Oid>): seq<Oid> {
    seq(|ts|, i requires 0 <= i < |ts| => [x] + ts[i])
  }

  function Each(xs: seq<nat>, ts: seq<Oid>): seq<Oid> {
    if xs == [] then [] else Prefixed(xs[0], ts) + Each(xs[1..], ts)
  }

  /** The tuples of a block, the last dimension varying fastest. */
  function Tuples(b: Block): seq<Oid> {
    if b == [] then [[]] else Each(b[0], Tuples(b[1..]))
  }

  function Names(bs: seq<Block>): seq<Oid> {
    if bs == [] then [] else Tuples(bs[0]) + Names(bs[1..])
  }

  lemma IncreasingConcat(s: seq<Oid>, t: seq<Oid>)
    requires Increasing(s) && Increasing(t) && forall v, w :: v in s && w in t ==> Less(v, w)
    ensures Increasing(s + t)
  {
    var r := s + t;
    forall i, j | 0 <= i < j < |r|
      ensures Less(r[i], r[j])
    {
      if i < |s| <= j {
        assert r[i] in s && r[j] in t;
      }
    }
  }

  lemma PrefixedIs(x: nat, ts: seq<Oid>)
    ensures forall w :: w in Prefixed(x, ts) <==> w != [] && w[0] == x && w[1..] in ts
    ensures Increasing(ts) ==> Increasing(Prefixed(x, ts))
  {
    var r := Prefixed(x, ts);
    forall w | w != [] && w[0] == x && w[1..] in ts
      ensures w in r
    {
      var i :| 0 <= i < |ts| && ts[i] == w[1..];
      assert r[i] == [x] + ts[i] == w;
    }
    if Increasing(ts) {
      forall i, j | 0 <= i < j < |r|
        ensures Less(r[i], r[j])
      {
        ConsLess(x, ts[i], ts[j]);
      }
    }
  }

  lemma ConsLess(x: nat, v: Oid, w: Oid)
    requires Less(v, w)
    ensures Less([x] + v, [x] + w)
  {
    var k := Lcp(v, w);
    var a, b := [x] + v, [x] + w;
    assert a[..k + 1] == [x] + v[..k] && b[..k + 1] == [x] + w[..k];
    LessAt(a, b, k + 1);
  }

  lemma {:induction false} EachIs(xs: seq<nat>, ts: seq<Oid>)
    requires IdsSorted(xs)
    ensures forall w :: w in Each(xs, ts) <==> w != [] && w[0] in xs && w[1..] in ts
    ensures Increasing(ts) ==> Increasing(Each(xs, ts))
  {
    if xs != [] {
      var p, q := Prefixed(xs[0], ts), Each(xs[1..], ts);
      PrefixedIs(xs[0], ts);
      EachIs(xs[1..], ts);
      assert forall x :: x in xs <==> x == xs[0] || x in xs[1..];
      forall v, w | v in p && w in q
        ensures Less(v, w)
      {
        LessAt(v, w, 0);
      }
      if Increasing(ts) {
        IncreasingConcat(p, q);
      }
    }
  }

  lemma {:induction false} TuplesAre(b: Block)
    requires forall i :: 0 <= i < |b| ==> IdsSorted(b[i])
    ensures forall w :: w in Tuples(b) <==> InBlock(b, w)
    ensures Increasing(Tuples(b))
  {
    if b != [] {
      var c := b[1..];
      TuplesAre(c);
      EachIs(b[0], Tuples(c));
      hide InBlock, Each, IdsSorted, Increasing;
      forall w
        ensures w != [] && w[0] in b[0] && InBlock(c, w[1..]) <==> InBlock(b, w)
      {
        InBlockCons(b, w);
      }
    }
  }

  lemma InBlockCons(b: Block, w: Oid)
    requires b != []
    ensures w != [] && w[0] in b[0] && InBlock(b[1..], w[1..]) <==> InBlock(b, w)
  {
    var c := b[1..];
    if InBlock(b, w) {
      assert w[0] in b[0];
    }
    if w != [] && w[0] in b[0] && InBlock(c, w[1..]) {
      forall i | 0 <= i < |w|
        ensures w[i] in b[i]
      {
        assert i > 0 ==> w[1..][i - 1] in c[i - 1];
      }
    }
  }

  lemma {:induction false} ListsNames(bs: seq<Block>)
    requires BlocksOk(bs)
    ensures forall w :: w in Names(bs) <==> InBlocks(bs, w)
    ensures Increasing(Names(bs))
  {
    if bs != [] {
      var cs := bs[1..];
      assert forall i :: 0 <= i < |cs| ==> cs[i] == bs[i + 1];
      assert BlocksOk(cs);
      ListsNames(cs);
      TuplesAre(bs[0]);
      forall w
        ensures InBlocks(bs, w) <==> InBlock(bs[0], w) || InBlocks(cs, w)
      {
        InBlocksCons(bs, w);
      }
      forall v, w | v in Tuples(bs[0]) && w in Names(cs)
        ensures Less(v, w)
      {
        var j :| 0 <= j < |cs| && InBlock(cs[j], w);
        assert v[0] in bs[0][0];
        BlocksAreOrdered(bs, 0, j + 1, v, w);
      }
      IncreasingConcat(Tuples(bs[0]), Names(cs));
    }
  }

  lemma InBlocksCons(bs: seq<Block>, w: Oid)
    requires bs != []
    ensures InBlocks(bs, w) <==> InBlock(bs[0], w) || InBlocks(bs[1..], w)
  {
    if InBlocks(bs, w) && !InBlock(bs[0], w) {
      var i :| 0 <= i < |bs| && InBlock(bs[i], w);
      assert bs[1..][i - 1] == bs[i];
    }
    if InBlocks(bs[1..], w) {
      var i :| 0 <= i < |bs[1..]| && InBlock(bs[1..][i], w);
      assert bs[i + 1] == bs[1..][i];
    }
  }

  // ---------- One search through the blocks

  /** `r` is the least name of the group after `req`; the empty OID says there is none. */
  ghost predicate IsNextName(bs: seq<Block>, req: Oid, r: Oid) {
    if r == [] then forall w :: InBlocks(bs, w) ==> !Less(req, w)
    else InBlocks(bs, r) && Less(req, r) && forall w :: InBlocks(bs, w) && Less(req, w) ==> Le(r, w)
  }

  /** For the blocks from `i` on it makes no difference whether the search goes on from one OID or the other. */
  ghost predicate SameFor(bs: seq<Block>, i: nat, req: Oid, table: Oid) {
    forall k, w :: i <= k < |bs| && InBlock(bs[k], w) ==> (Less(req, w) <==> Less(table, w))
  }

  /** Nothing of the first `i` blocks comes after the OID. */
  ghost predicate Done(bs: seq<Block>, i: nat, req: Oid) {
    forall k, w :: 0 <= k < i && k < |bs| && InBlock(bs[k], w) ==> !Less(req, w)
  }

  lemma StillSame(bs: seq<Block>, i: nat, req: Oid, table: Oid, table': Oid)
    requires BlocksOk(bs) && i < |bs| && SameFor(bs, i, req, table) && LeftAt(bs[i], table, table')
    ensures SameFor(bs, i + 1, req, table')
  {
    if table' != table {
      forall k, w | i + 1 <= k < |bs| && InBlock(bs[k], w)
        ensures Less(req, w) && Less(table', w)
      {
        BlocksAreOrdered(bs, i, k, table', w);
        LessTrans(table, table', w);
      }
    }
  }

  lemma BlockDone(bs: seq<Block>, i: nat, req: Oid, table: Oid)
    requires i < |bs| && Done(bs, i, req) && SameFor(bs, i, req, table) && IsNextTuple(bs[i], table, [])
    ensures Done(bs, i + 1, req)
  {
  }

  lemma FirstBlockWins(bs: seq<Block>, i: nat, req: Oid, table: Oid, r: Oid)
    requires BlocksOk(bs) && i < |bs| && Done(bs, i, req) && SameFor(bs, i, req, table) && r != []
      && IsNextTuple(bs[i], table, r)
    ensures IsNextName(bs, req, r)
  {
    assert InBlock(bs[i], r);
    assert r[0] in bs[i][0];
    forall w | InBlocks(bs, w) && Less(req, w)
      ensures Le(r, w)
    {
      var k :| 0 <= k < |bs| && InBlock(bs[k], w);
      if k > i {
        BlocksAreOrdered(bs, i, k, r, w);
      }
    }
  }

  /** From block `from` on, the first block with a successor gives the next name; the table holds it afterwards. */
  method SearchBlocks(bs: seq<Block>, from: nat, req: Oid) returns (r: Oid, i: nat)
    requires BlocksOk(bs) && from <= |bs| && Done(bs, from, req)
    ensures from <= i <= |bs| && IsNextName(bs, req, r)
    ensures r != [] ==> i < |bs| && Done(bs, i, r)
  {
    hide IsNextTuple, SameFor, Done, IsNextName, LeftAt;
    var table := req;
    i := from;
    StartSame(bs, i, req);
    while i < |bs|
      invariant from <= i <= |bs| && Done(bs, i, req) && SameFor(bs, i, req, table)
    {
      ghost var before := table;
      r, table := GetNext(table, 0, map[], bs[i], 0, table, true);
      if r != [] {
        FirstBlockWins(bs, i, req, before, r);
        StillDone(bs, i, req, r);
        return;
      }
      BlockDone(bs, i, req, before);
      StillSame(bs, i, req, before, table);
      i := i + 1;
    }
    NoBlockWins(bs, req);
    r := [];
  }

  lemma StartSame(bs: seq<Block>, i: nat, req: Oid)
    ensures SameFor(bs, i, req, req)
  {
  }

  lemma StillDone(bs: seq<Block>, i: nat, req: Oid, r: Oid)
    requires Done(bs, i, req) && r != [] && IsNextName(bs, req, r)
    ensures Done(bs, i, r)
  {
    forall k, w | 0 <= k < i && k < |bs| && InBlock(bs[k], w)
      ensures !Less(r, w)
    {
      if Less(r, w) {
        LessTrans(req, r, w);
      }
    }
  }

  lemma NoBlockWins(bs: seq<Block>, req: Oid)
    requires Done(bs, |bs|, req)
    ensures IsNextName(bs, req, [])
  {
  }

  // ---------- Variables that cannot be read

  /** Position of the first name after `q`; the length when there is none. */
  function FirstAfter(names: seq<Oid>, q: Oid): (n: nat)
    ensures n <= |names| && (n < |names| ==> Less(q, names[n]))
    ensures forall i :: 0 <= i < n ==> !Less(q, names[i])
  {
    if names == [] || Less(q, names[0]) then 0
    else
      var n := FirstAfter(names[1..], q);
      assert forall i :: 0 < i < n + 1 ==> names[i] == names[1..][i - 1];
      n + 1
  }

  /** Where the search goes on after a variable it cannot read: for a table, at row 0 of the next column. */
  function Bump(r: Oid): Oid {
    if |r| >= 4 then r[..2] + [r[2] + 1, 0] + r[4..] else r
  }

  lemma BumpIsLe(r: Oid)
    ensures Le(r, Bump(r))
  {
    if |r| >= 4 {
      assert Bump(r)[..2] == r[..2];
      LessAt(r, Bump(r), 2);
    }
  }

  lemma BumpAdvances(names: seq<Oid>, n: nat)
    requires Increasing(names) && n < |names|
    ensures FirstAfter(names, Bump(names[n])) > n
  {
    hide Bump, Less, FirstAfter, Increasing;
    BumpIsLe(names[n]);
    NoneBefore(names, n, Bump(names[n]));
  }

  /** Nothing up to a name comes after what is at or after that name. */
  lemma NoneBefore(names: seq<Oid>, n: nat, q: Oid)
    requires Increasing(names) && n < |names| && Le(names[n], q)
    ensures forall i :: 0 <= i <= n ==> !Less(q, names[i])
  {
    hide Less;
    forall i | 0 <= i <= n
      ensures !Less(q, names[i])
    {
      Trichotomy(names[i], q);
      if i < n {
        LeTrans(names[i], names[n], q);
      }
    }
  }

  /**
   The answer of the group: the next name, or, if that one cannot be read, the answer from where the search goes on.
   */
  ghost function Serve(names: seq<Oid>, readable: Oid -> bool, q: Oid): Oid
    requires Increasing(names)
    decreases |names| - FirstAfter(names, q)
  {
    var n := FirstAfter(names, q);
    if n == |names| then []
    else if readable(names[n]) then names[n]
    else
      BumpAdvances(names, n);
      Serve(names, readable, Bump(names[n]))
  }

  lemma NextIsFirstAfter(bs: seq<Block>, q: Oid, r: Oid)
    requires BlocksOk(bs) && IsNextName(bs, q, r)
    ensures var names := Names(bs); var n := FirstAfter(names, q);
      (n == |names| <==> r == []) && (n < |names| ==> names[n] == r)
  {
    ListsNames(bs);
    var names := Names(bs);
    hide Names;
    var n := FirstAfter(names, q);
    if n < |names| {
      assert names[n] in names;
    }
    if r != [] {
      var i :| 0 <= i < |names| && names[i] == r;
      Trichotomy(names[n], r);
    }
  }

  /** GETNEXT in a group: search, and search again after a variable that cannot be read. */
  method GroupNext(bs: seq<Block>, readable: Oid -> bool, req: Oid) returns (r: Oid)
    requires BlocksOk(bs)
    ensures Increasing(Names(bs)) && r == Serve(Names(bs), readable, req)
  {
    ListsNames(bs);
    ghost var names := Names(bs);
    hide Names, Increasing, Done, IsNextName, BlocksOk;
    var table, i := req, 0;
    StartDone(bs, req);
    while true
      invariant i <= |bs| && Done(bs, i, table) && Serve(names, readable, table) == Serve(names, readable, req)
      decreases |names| - FirstAfter(names, table)
    {
      ghost var n := FirstAfter(names, table);
      ghost var before := table;
      r, i := SearchBlocks(bs, i, table);
      NextIsFirstAfter(bs, before, r);
      if r == [] || readable(r) {
        return;
      }
      table := Bump(r);
      BumpAdvances(names, n);
      DoneFurther(bs, i, r);
    }
  }

  lemma StartDone(bs: seq<Block>, req: Oid)
    ensures Done(bs, 0, req)
  {
  }

  lemma DoneFurther(bs: seq<Block>, i: nat, r: Oid)
    requires Done(bs, i, r)
    ensures Done(bs, i, Bump(r))
  {
    BumpIsLe(r);
    forall k, w | 0 <= k < i && k < |bs| && InBlock(bs[k], w)
      ensures !Less(Bump(r), w)
    {
      if Less(Bump(r), w) {
        LeTrans(r, Bump(r), w);
      }
    }
  }

  /** `r` is the least name after `q` that can be read; the empty OID says there is none. */
  ghost predicate IsNextReadable(names: seq<Oid>, readable: Oid -> bool, q: Oid, r: Oid) {
    if r == [] then forall w :: w in names && readable(w) ==> !Less(q, w)
    else r in names && readable(r) && Less(q, r) && forall w :: w in names && readable(w) && Less(q, w) ==> Le(r, w)
  }

  /**
   Whatever lies between a variable that cannot be read and the place where the search goes on cannot be read
   either.
   */
  ghost predicate SkipsOnlyHidden(names: seq<Oid>, readable: Oid -> bool) {
    forall i, j :: 0 <= i < j < |names| && !readable(names[i]) && Le(names[j], Bump(names[i])) ==> !readable(names[j])
  }

  lemma {:induction false} ServeIsAfter(names: seq<Oid>, readable: Oid -> bool, q: Oid)
    requires Increasing(names)
    ensures var r := Serve(names, readable, q); r != [] ==> Less(q, r)
    decreases |names| - FirstAfter(names, q)
  {
    var n := FirstAfter(names, q);
    if n < |names| && !readable(names[n]) {
      BumpAdvances(names, n);
      ServeIsAfter(names, readable, Bump(names[n]));
      BumpIsLe(names[n]);
      var r := Serve(names, readable, q);
      if r != [] {
        LeTrans(names[n], Bump(names[n]), r);
        LessTrans(q, names[n], r);
      }
    }
  }

  lemma {:induction false} ServesHidden(names: seq<Oid>, readable: Oid -> bool, q: Oid)
    requires Increasing(names) && SkipsOnlyHidden(names, readable) && forall i :: 0 <= i < |names| ==> names[i] != []
    ensures IsNextReadable(names, readable, q, Serve(names, readable, q))
    decreases |names| - FirstAfter(names, q)
  {
    hide Less, Bump;
    var n := FirstAfter(names, q);
    if n < |names| && !readable(names[n]) {
      var p := Bump(names[n]);
      BumpAdvances(names, n);
      ServesHidden(names, readable, p);
      hide SkipsOnlyHidden, Serve;
      BumpIsLe(names[n]);
      LeTrans(q, names[n], p);
      forall w | w in names && readable(w)
        ensures Less(q, w) <==> Less(p, w)
      {
        var j :| 0 <= j < |names| && names[j] == w;
        BetweenHidden(names, readable, n, j, q);
      }
    } else if n < |names| {
      forall w | w in names && Less(q, w)
        ensures Le(names[n], w)
      {
        var j :| 0 <= j < |names| && names[j] == w;
      }
    } else {
      assert forall w :: w in names ==> !Less(q, w);
    }
  }

  lemma BetweenHidden(names: seq<Oid>, readable: Oid -> bool, n: nat, j: nat, q: Oid)
    requires Increasing(names) && SkipsOnlyHidden(names, readable) && j < |names|
    requires n == FirstAfter(names, q) < |names| && !readable(names[n]) && readable(names[j])
    ensures Less(q, names[j]) <==> Less(Bump(names[n]), names[j])
  {
    var p, w := Bump(names[n]), names[j];
    BumpIsLe(names[n]);
    LeTrans(q, names[n], p);
    Trichotomy(p, w);
    if Less(p, w) {
      LessTrans(q, p, w);
    } else {
      assert Le(w, p);
    }
  }

  /**
   The group answers every request with the next variable that can be read if and only if it skips only what cannot.
   */
  lemma ServesReadable(names: seq<Oid>, readable: Oid -> bool)
    requires Increasing(names) && forall i :: 0 <= i < |names| ==> names[i] != []
    ensures (forall q :: IsNextReadable(names, readable, q, Serve(names, readable, q))) <==>
      SkipsOnlyHidden(names, readable)
  {
    if SkipsOnlyHidden(names, readable) {
      forall q
        ensures IsNextReadable(names, readable, q, Serve(names, readable, q))
      {
        ServesHidden(names, readable, q);
      }
    } else {
      var i, j :| 0 <= i < j < |names| && !readable(names[i]) && Le(names[j], Bump(names[i])) && readable(names[j]);
      SkipsOne(names, readable, i, j);
    }
  }

  /** The request just before a variable that cannot be read misses whatever is skipped. */
  lemma SkipsOne(names: seq<Oid>, readable: Oid -> bool, i: nat, j: nat)
    requires Increasing(names) && forall i :: 0 <= i < |names| ==> names[i] != []
    requires i < j < |names| && !readable(names[i]) && Le(names[j], Bump(names[i])) && readable(names[j])
    ensures exists q :: !IsNextReadable(names, readable, q, Serve(names, readable, q))
  {
    var q := if i == 0 then [] else names[i - 1];
    var p := Bump(names[i]);
    JustBefore(names, i);
    var r := Serve(names, readable, q);
    assert r == Serve(names, readable, p);
    ServeIsAfter(names, readable, p);
    LessTrans(q, names[i], names[j]);
    assert names[j] in names;
    hide Serve;
    if r != [] {
      LeTrans(names[j], p, r);
      Trichotomy(names[j], r);
    }
    assert !IsNextReadable(names, readable, q, r);
  }

  lemma JustBefore(names: seq<Oid>, i: nat)
    requires Increasing(names) && i < |names| && names[i] != []
    ensures var q := if i == 0 then [] else names[i - 1]; FirstAfter(names, q) == i && Less(q, names[i])
  {
    hide Less, FirstAfter;
    if i == 0 {
      PrefixIsLe([], names[0]);
    } else {
      NoneBefore(names, i - 1, names[i - 1]);
    }
  }

  /** Column 1 hidden, row 0 in use: the search goes on behind the first row of column 2, which can be read. */
  lemma RowZeroIsSkipped()
    ensures var names := [[1, 1, 1, 0], [1, 1, 2, 0]]; var readable := (w: Oid) => w == [1, 1, 2, 0];
      Increasing(names) && !SkipsOnlyHidden(names, readable)
  {
    var names: seq<Oid> := [[1, 1, 1, 0], [1, 1, 2, 0]];
    LessAt(names[0], names[1], 2);
    assert Bump(names[0]) == names[1];
  }

  /** If variables are hidden by whole columns and no row is numbered 0, only hidden ones are skipped. */
  lemma HiddenColumns(names: seq<Oid>, readable: Oid -> bool)
    requires Increasing(names)
    requires forall v, w :: v in names && w in names && |v| >= 4 && |w| >= 4 && v[..3] == w[..3] ==>
      readable(v) == readable(w)
    requires forall w :: w in names ==> |w| == 2 || (|w| >= 4 && w[3] > 0)
    ensures SkipsOnlyHidden(names, readable)
  {
    forall i, j | 0 <= i < j < |names| && !readable(names[i]) && Le(names[j], Bump(names[i]))
      ensures !readable(names[j])
    {
      assert names[i] in names && names[j] in names;
      SameColumn(names[i], names[j]);
    }
  }

  lemma SameColumn(v: Oid, w: Oid)
    requires Less(v, w) && Le(w, Bump(v)) && (|w| == 2 || (|w| >= 4 && w[3] > 0))
    ensures |v| >= 4 && |w| >= 4 && w[..3] == v[..3]
  {
    var p := Bump(v);
    Trichotomy(v, w);
    assert |v| >= 4;
    assert p[..2] == v[..2] && p[2] == v[2] + 1 && p[3] == 0;
    PrefixIsLe(v[..2], v);
    LeTrans(v[..2], v, w);
    Between(v[..2], w, p);
    assert w[..2] == v[..2];
    assert Lcp(v, w) >= 2 && Lcp(w, p) >= 2;
    assert |w| >= 4;
    assert w[..3] == w[..2] + [w[2]] && v[..3] == v[..2] + [v[2]];
  }

  // ---------- The handler the tree search assumes

  function Shown(get: Oid -> Option<Value>): Oid -> bool {
    w => get(w).Some?
  }

  /** The names that can be read, with their values. */
  function Readable(names: seq<Oid>, get: Oid -> Option<Value>): Handler {
    if names == [] then []
    else
      var w := names[|names| - 1];
      Readable(names[..|names| - 1], get) + if get(w).Some? then [Binding(w, get(w).value)] else []
  }

  lemma {:induction false} ReadableFrom(names: seq<Oid>, get: Oid -> Option<Value>, i: nat) returns (j: nat)
    requires i < |Readable(names, get)|
    ensures j < |names| && Readable(names, get)[i].suffix == names[j]
      && get(names[j]) == Some(Readable(names, get)[i].value)
  {
    var n := |names| - 1;
    if i < |Readable(names[..n], get)| {
      j := ReadableFrom(names[..n], get, i);
    } else {
      j := n;
    }
  }

  lemma {:induction false} ReadableTo(names: seq<Oid>, get: Oid -> Option<Value>, j: nat) returns (i: nat)
    requires j < |names| && get(names[j]).Some?
    ensures i < |Readable(names, get)| && Readable(names, get)[i].suffix == names[j]
  {
    var n := |names| - 1;
    if j < n {
      i := ReadableTo(names[..n], get, j);
    } else {
      i := |Readable(names[..n], get)|;
    }
  }

  lemma {:induction false} ReadableInOrder(names: seq<Oid>, get: Oid -> Option<Value>, i: nat, j: nat)
    returns (k: nat, l: nat)
    requires i < j < |Readable(names, get)|
    ensures k < l < |names| && Readable(names, get)[i].suffix == names[k] && Readable(names, get)[j].suffix == names[l]
  {
    var n := |names| - 1;
    if j < |Readable(names[..n], get)| {
      k, l := ReadableInOrder(names[..n], get, i, j);
    } else {
      k := ReadableFrom(names[..n], get, i);
      l := n;
    }
  }

  /** The names of the handler are exactly the readable ones. */
  ghost predicate Lists(h: Handler, names: seq<Oid>, readable: Oid -> bool) {
    && (forall i :: 0 <= i < |h| ==> h[i].suffix in names && readable(h[i].suffix))
    && (forall w :: w in names && readable(w) ==> exists i :: 0 <= i < |h| && h[i].suffix == w)
  }

  lemma ReadableIs(names: seq<Oid>, get: Oid -> Option<Value>)
    requires Increasing(names) && forall w :: w in names ==> w != [] && Fits32(w)
    ensures HandlerOk(Readable(names, get)) && Lists(Readable(names, get), names, Shown(get))
  {
    var h := Readable(names, get);
    hide Less;
    forall i | 0 <= i < |h|
      ensures h[i].suffix in names && Shown(get)(h[i].suffix)
    {
      var j := ReadableFrom(names, get, i);
    }
    forall w | w in names && Shown(get)(w)
      ensures exists i :: 0 <= i < |h| && h[i].suffix == w
    {
      var j :| 0 <= j < |names| && names[j] == w;
      var i := ReadableTo(names, get, j);
    }
    forall i, j | 0 <= i < j < |h|
      ensures Less(h[i].suffix, h[j].suffix)
    {
      var k, l := ReadableInOrder(names, get, i, j);
    }
  }

  /**
   The contract of the tree search: a group that skips only what cannot be read answers GETNEXT as the ordered list
   of its readable variables does, and that list is a handler the search accepts.
   */
  lemma GroupMeetsContract(bs: seq<Block>, get: Oid -> Option<Value>, req: Oid)
    requires BlocksOk(bs) && forall w :: InBlocks(bs, w) ==> Fits32(w)
    requires SkipsOnlyHidden(Names(bs), Shown(get))
    ensures Increasing(Names(bs)) && HandlerOk(Readable(Names(bs), get))
    ensures var h := Readable(Names(bs), get); var n := HandlerNext(h, req);
      Serve(Names(bs), Shown(get), req) == if n == |h| then [] else h[n].suffix
  {
    hide Names, Readable, Serve, SkipsOnlyHidden, BlocksOk, InBlocks, Less, Shown, HandlerNext, HandlerOk, Lists;
    hide Increasing, IsNextReadable;
    ListsNames(bs);
    var names := Names(bs);
    var h := Readable(names, get);
    forall w | w in names
      ensures w != [] && Fits32(w)
    {
      NoEmptyName(bs, w);
    }
    ReadableIs(names, get);
    assert forall i :: 0 <= i < |names| ==> names[i] in names;
    ServesHidden(names, Shown(get), req);
    SameNext(h, names, Shown(get), req, Serve(names, Shown(get), req));
  }

  lemma NoEmptyName(bs: seq<Block>, w: Oid)
    requires BlocksOk(bs) && InBlocks(bs, w)
    ensures w != []
  {
  }

  lemma SameNext(h: Handler, names: seq<Oid>, readable: Oid -> bool, req: Oid, r: Oid)
    requires HandlerOk(h) && Lists(h, names, readable)
    requires IsNextReadable(names, readable, req, r)
    ensures var n := HandlerNext(h, req); r == if n == |h| then [] else h[n].suffix
  {
    var n := HandlerNext(h, req);
    hide HandlerNext, Less, Fits32;
    if n < |h| {
      assert h[n].suffix in names && readable(h[n].suffix);
      if r != [] {
        var i :| 0 <= i < |h| && h[i].suffix == r;
        assert n < i ==> Less(h[n].suffix, r);
        Trichotomy(h[n].suffix, r);
      }
    }
  }

  // ---------- GET in a group

  /** A scalar has two dimensions, the second being 0; a table has four or more. */
  ghost predicate Shaped(b: Block) {
    (|b| == 2 && b[1] == [0]) || |b| >= 4
  }

  /** The name of a scalar, or that of a table's column followed by any row. */
  ghost predicate NamesRow(b: Block, w: Oid) {
    && w != [] && b != [] && w[0] in b[0]
    && ((|b| == 2 && |w| == 2 && w[1] == 0) || (|b| >= 4 && |w| >= 4 && w[1] in b[1] && w[2] in b[2]))
  }

  ghost predicate Addressed(bs: seq<Block>, w: Oid) {
    exists i :: 0 <= i < |bs| && NamesRow(bs[i], w)
  }

  /** The block that has the object's number in its first dimension. */
  method FindObject(bs: seq<Block>, id: nat) returns (i: nat)
    requires BlocksOk(bs)
    ensures i <= |bs| && (i < |bs| ==> id in bs[i][0]) && forall k :: 0 <= k < |bs| && id in bs[k][0] ==> k == i
  {
    i := 0;
    while i < |bs|
      invariant i <= |bs| && forall k :: 0 <= k < i ==> id !in bs[k][0]
    {
      var j := 0;
      while j < |bs[i][0]|
        invariant j <= |bs[i][0]| && id !in bs[i][0][..j]
      {
        if bs[i][0][j] == id {
          return;
        }
        j := j + 1;
      }
      assert bs[i][0][..j] == bs[i][0];
      i := i + 1;
    }
  }

  /** GET in a group: the object must exist, and for a table the column; the row is left to the variable. */
  method GroupGet(bs: seq<Block>, get: Oid -> Option<Value>, w: Oid) returns (r: Option<Value>)
    requires BlocksOk(bs)
    ensures r == if Addressed(bs, w) then get(w) else None
  {
    if w == [] {
      return None;
    }
    var i := FindObject(bs, w[0]);
    hide BlocksOk;
    if i == |bs| {
      return None;
    }
    assert Addressed(bs, w) <==> NamesRow(bs[i], w);
    if |bs[i]| == 2 {
      r := if |w| == 2 && w[1] == 0 then get(w) else None;
    } else if |bs[i]| >= 4 {
      if |w| < 3 || w[1] !in bs[i][1] || w[2] !in bs[i][2] || |w| == 3 {
        return None;
      }
      r := get(w);
    } else {
      r := None;
    }
  }

  lemma ReadableGet(names: seq<Oid>, get: Oid -> Option<Value>, w: Oid)
    requires Increasing(names) && forall w :: w in names ==> w != [] && Fits32(w)
    ensures HandlerGet(Readable(names, get), w) == if w in names then get(w) else None
  {
    var h := Readable(names, get);
    ReadableIs(names, get);
    HandlerGetIndex(h, w);
    hide HandlerGet;
    if HandlerGet(h, w).Some? {
      var i :| 0 <= i < |h| && h[i].suffix == w && h[i].value == HandlerGet(h, w).value;
      var j := ReadableFrom(names, get, i);
    }
    if w in names && get(w).Some? {
      var j :| 0 <= j < |names| && names[j] == w;
      var i := ReadableTo(names, get, j);
      HandlerGetAt(h, i);
    }
  }

  lemma NamesAddressed(bs: seq<Block>, w: Oid)
    requires InBlocks(bs, w) && BlocksOk(bs) && forall i :: 0 <= i < |bs| ==> Shaped(bs[i])
    ensures Addressed(bs, w)
  {
    var i :| 0 <= i < |bs| && InBlock(bs[i], w);
    assert w[0] in bs[i][0] && w[1] in bs[i][1] && (|w| > 2 ==> w[2] in bs[i][2]);
    assert NamesRow(bs[i], w);
  }

  /**
   The other half of the contract: GET in a group answers as its handler does for every name if and only if no
   variable gives a value for a row that is not in the group's index.
   */
  lemma GetMeetsContract(bs: seq<Block>, get: Oid -> Option<Value>)
    requires BlocksOk(bs) && (forall i :: 0 <= i < |bs| ==> Shaped(bs[i])) && forall w :: InBlocks(bs, w) ==> Fits32(w)
    ensures (forall w :: HandlerGet(Readable(Names(bs), get), w) == if Addressed(bs, w) then get(w) else None) <==>
      forall w :: Addressed(bs, w) && get(w).Some? ==> InBlocks(bs, w)
  {
    ListsNames(bs);
    var names := Names(bs);
    hide Names, Readable, HandlerGet, Shaped, Increasing;
    forall w
      ensures HandlerGet(Readable(names, get), w) == if InBlocks(bs, w) then get(w) else None
      ensures InBlocks(bs, w) ==> Addressed(bs, w)
    {
      forall v | v in names
        ensures v != []
      {
        NoEmptyName(bs, v);
      }
      ReadableGet(names, get, w);
      if InBlocks(bs, w) {
        NamesAddressed(bs, w);
      }
    }
  }

  // ---------- All handlers of a tree

  /** A group as the agent runs it: its index and the values its variables give. */
  datatype Source = Source(blocks: seq<Block>, get: Oid -> Option<Value>)

  function LuaOf(gs: map<int, Source>): Lua {
    map cb | cb in gs :: Readable(Names(gs[cb].blocks), gs[cb].get)
  }

  /** Groups behind all callbacks of a tree, with names that stay within 64 sub-ids, are what its searches assume. */
  lemma GroupsServe(t: Table, gs: map<int, Source>)
    requires forall p :: p in t && t[p].Leaf? ==>
      && t[p].callback in gs && BlocksOk(gs[t[p].callback].blocks)
      && forall w :: InBlocks(gs[t[p].callback].blocks, w) ==> Fits32(w) && |p| + |w| <= OID_MAX_LEN
    ensures Served(t, LuaOf(gs))
  {
    hide BlocksOk, InBlocks, HandlerOk;
    forall p | p in t && t[p].Leaf?
      ensures HandlerOk(LuaOf(gs)[t[p].callback]) && NamesFit(p, LuaOf(gs)[t[p].callback])
    {
      var g := gs[t[p].callback];
      var names := Names(g.blocks);
      ListsNames(g.blocks);
      forall v | v in names
        ensures v != []
      {
        NoEmptyName(g.blocks, v);
      }
      ReadableIs(names, g.get);
    }
  }
}
