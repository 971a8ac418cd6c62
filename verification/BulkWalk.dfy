/** GETBULK: every requested column walks on from where its last answer left it. */
module BulkWalk {
  import opened Oids
  import opened MibTable
  import opened NextSearch
  import opened MibTree
  import opened Views
  import opened Dispatch

  function Concat(rows: seq<seq<Reply>>): seq<Reply> {
    if rows == [] then [] else Concat(rows[..|rows| - 1]) + rows[|rows| - 1]
  }

  lemma {:induction false} ConcatCount(rows: seq<seq<Reply>>, n: nat)
    requires forall i :: 0 <= i < |rows| ==> |rows[i]| == n
    ensures |Concat(rows)| == |rows| * n
  {
    if rows != [] {
      var m := |rows| - 1;
      ConcatCount(rows[..m], n);
      MulSucc(m, n);
    }
  }

  lemma MulSucc(m: nat, n: nat)
    ensures (m + 1) * n == m * n + n
  {
  }

  ghost predicate Grid(rows: seq<seq<Reply>>, n: nat) {
    forall i :: 0 <= i < |rows| ==> |rows[i]| == n
  }

  ghost function Column(rows: seq<seq<Reply>>, n: nat, j: nat): (col: seq<Reply>)
    requires Grid(rows, n) && j < n
    ensures |col| == |rows|
  {
    seq(|rows|, i requires 0 <= i < |rows| => rows[i][j])
  }

  /** An answer where every comparison is sound: the next variable, or the request again when there is none. */
  ghost predicate Follows(t: Table, lua: Lua, vs: seq<View>, orig: Oid, r: Reply) {
    && !r.NoAccess? && AnswersIn(t, lua, vs, orig, r.Name())
    && (r.Next? ==> Lookup(t, lua, r.oid) == Some(r.value))
    && (r.EndOfView? ==> r.oid == orig)
  }

  lemma RepliesFollow(t: Table, lua: Lua, vs: seq<View>, orig: Oid, r: Reply)
    requires ListOk(vs) && Sorted(vs) && Comparable(vs, orig) && Replies(t, lua, vs, orig, r)
    ensures Follows(t, lua, vs, orig, r)
  {
    hide AnswersIn, InOrder, Lookup, ListOk, Sorted, Comparable;
    var n: nat :| InOrder(t, lua, vs, orig, n, r.Name());
    OrderGives(t, lua, vs, orig, n, r.Name());
  }

  /** Each entry of a column answers the one before it; the first answers the start. */
  ghost predicate Chain(t: Table, lua: Lua, vs: seq<View>, start: Oid, col: seq<Reply>) {
    col == [] || (Chain(t, lua, vs, start, col[..|col| - 1])
      && Replies(t, lua, vs, Cursor(start, col[..|col| - 1]), col[|col| - 1]))
  }

  /** The OID a column goes on from. */
  function Cursor(start: Oid, col: seq<Reply>): Oid {
    if col == [] then start else col[|col| - 1].oid
  }

  /** A variable the agent serves after `start`. */
  ghost predicate Due(t: Table, lua: Lua, vs: seq<View>, start: Oid, w: Oid) {
    WantedIn(t, lua, vs, start, w) && !IsViewOid(vs, w)
  }

  ghost predicate Listed(col: seq<Reply>, w: Oid) {
    exists i :: 0 <= i < |col| && col[i].oid == w
  }

  /** A column that has not ended: variables due, with their values, in increasing order, none left out so far. */
  ghost predicate Open(t: Table, lua: Lua, vs: seq<View>, start: Oid, col: seq<Reply>) {
    && (forall i :: 0 <= i < |col| ==>
          col[i].Next? && Due(t, lua, vs, start, col[i].oid) && Lookup(t, lua, col[i].oid) == Some(col[i].value))
    && (forall i, j :: 0 <= i < j < |col| ==> Less(col[i].oid, col[j].oid))
    && (forall w :: Due(t, lua, vs, start, w) ==> Listed(col, w) || Less(Cursor(start, col), w))
  }

  /**
   The first `m` entries walk through the variables due; the rest repeat the end of the view, after the last
   variable due.
   */
  ghost predicate IsWalk(t: Table, lua: Lua, vs: seq<View>, start: Oid, col: seq<Reply>, m: nat) {
    && m <= |col| && Open(t, lua, vs, start, col[..m])
    && (forall i :: m <= i < |col| ==> col[i] == EndOfView(Cursor(start, col[..m])))
    && (m < |col| ==> forall w :: Due(t, lua, vs, start, w) ==> Listed(col[..m], w))
  }

  ghost predicate Walks(t: Table, lua: Lua, vs: seq<View>, start: Oid, col: seq<Reply>) {
    exists m: nat :: IsWalk(t, lua, vs, start, col, m)
  }

  /** Each entry is the right answer, in the agent's sense, to the one before it. */
  ghost predicate Following(t: Table, lua: Lua, vs: seq<View>, start: Oid, col: seq<Reply>) {
    col == [] ||
    (&& Following(t, lua, vs, start, col[..|col| - 1])
     && Follows(t, lua, vs, Cursor(start, col[..|col| - 1]), col[|col| - 1]))
  }

  /** Over any list of views, a column is a walk if and only if each answer in it is right. */
  lemma WalkIffFollowing(t: Table, lua: Lua, vs: seq<View>, start: Oid, col: seq<Reply>)
    ensures Walks(t, lua, vs, start, col) <==> Following(t, lua, vs, start, col)
  {
    hide IsWalk, Following;
    if Walks(t, lua, vs, start, col) {
      var m: nat :| IsWalk(t, lua, vs, start, col, m);
      WalkIsFollowing(t, lua, vs, start, col, m);
    }
    if Following(t, lua, vs, start, col) {
      var m := FollowingIsWalk(t, lua, vs, start, col);
    }
  }

  lemma {:induction false} FollowingIsWalk(t: Table, lua: Lua, vs: seq<View>, start: Oid, col: seq<Reply>)
    returns (m: nat)
    requires Following(t, lua, vs, start, col)
    ensures IsWalk(t, lua, vs, start, col, m)
  {
    hide Follows, Due, Open, Listed;
    if col == [] {
      m := 0;
      NothingYet(t, lua, vs, start);
    } else {
      var pre, r := col[..|col| - 1], col[|col| - 1];
      m := FollowingIsWalk(t, lua, vs, start, pre);
      hide IsWalk, Following;
      assert pre + [r] == col;
      if m < |pre| {
        WalkEnds(t, lua, vs, start, pre, r, m);
      } else {
        WalkGrows(t, lua, vs, start, pre, r, m);
        m := if r.Next? then |col| else |pre|;
      }
    }
  }

  lemma {:induction false} WalkIsFollowing(t: Table, lua: Lua, vs: seq<View>, start: Oid, col: seq<Reply>, m: nat)
    requires IsWalk(t, lua, vs, start, col, m)
    ensures Following(t, lua, vs, start, col)
  {
    hide Follows, Due, Open, Listed;
    if col != [] {
      var n := |col| - 1;
      var pre, r := col[..n], col[n];
      if m == |col| {
        assert col[..m] == col && pre[..n] == pre && col == pre + [r];
        OpenBefore(t, lua, vs, start, pre, r);
        WalkIsFollowing(t, lua, vs, start, pre, n);
      } else {
        assert pre[..m] == col[..m];
        WalkIsFollowing(t, lua, vs, start, pre, m);
        assert Cursor(start, pre) == Cursor(start, col[..m]);
        EndFollows(t, lua, vs, start, col[..m]);
      }
    }
  }

  /** Without its last entry an open column is open, and that entry is the right answer. */
  lemma OpenBefore(t: Table, lua: Lua, vs: seq<View>, start: Oid, pre: seq<Reply>, r: Reply)
    requires Open(t, lua, vs, start, pre + [r])
    ensures Open(t, lua, vs, start, pre) && Follows(t, lua, vs, Cursor(start, pre), r)
  {
    hide Lookup, IsVar, Covers, IsViewOid, Less;
    var col, n := pre + [r], |pre|;
    assert col[n] == r && Cursor(start, col) == r.oid && forall i :: 0 <= i < n ==> col[i] == pre[i];
    var e := Cursor(start, pre);
    assert Less(e, r.oid);
    forall w | Due(t, lua, vs, start, w)
      ensures Listed(pre, w) || (Less(e, w) && Le(r.oid, w))
    {
      if Listed(col, w) {
        var i :| 0 <= i < |col| && col[i].oid == w;
        assert i < n ==> pre[i].oid == w;
      } else {
        LessTrans(e, r.oid, w);
      }
    }
    forall w | Due(t, lua, vs, e, w)
      ensures Le(r.oid, w)
    {
      DueLater(t, lua, vs, start, pre, w);
    }
  }

  /** What is due after an open column's last entry is due after its start, and not in it. */
  lemma DueLater(t: Table, lua: Lua, vs: seq<View>, start: Oid, col: seq<Reply>, w: Oid)
    requires Open(t, lua, vs, start, col) && Due(t, lua, vs, Cursor(start, col), w)
    ensures Due(t, lua, vs, start, w) && !Listed(col, w)
  {
    hide Lookup, IsVar, Covers, IsViewOid, Less;
    var e, n := Cursor(start, col), |col|;
    if n > 0 {
      LessTrans(start, e, w);
      forall i | 0 <= i < n
        ensures col[i].oid != w
      {
        Trichotomy(e, w);
        Trichotomy(col[i].oid, e);
        assert i < n - 1 ==> Less(col[i].oid, e);
      }
    }
  }

  /** When everything due is listed, the end is the right answer. */
  lemma EndFollows(t: Table, lua: Lua, vs: seq<View>, start: Oid, col: seq<Reply>)
    requires Open(t, lua, vs, start, col) && forall w :: Due(t, lua, vs, start, w) ==> Listed(col, w)
    ensures var e := Cursor(start, col); Follows(t, lua, vs, e, EndOfView(e))
  {
    hide Lookup, Open, Listed, IsVar, Covers, Less;
    var e := Cursor(start, col);
    forall w | WantedIn(t, lua, vs, e, w)
      ensures IsViewOid(vs, w)
    {
      if !IsViewOid(vs, w) {
        DueLater(t, lua, vs, start, col, w);
      }
    }
  }

  /** Walk completeness: over views that are sorted and compare soundly, from a start that does too. */
  lemma {:induction false} ChainIsWalk(t: Table, lua: Lua, vs: seq<View>, start: Oid, col: seq<Reply>)
    requires WellFormed(t) && Served(t, lua) && ListOk(vs) && Orderly(vs) && Comparable(vs, start)
    requires Chain(t, lua, vs, start, col)
    ensures Walks(t, lua, vs, start, col)
  {
    hide WellFormed, Served, ListOk, Orderly, Comparable, Chain, Walks;
    ChainFollows(t, lua, vs, start, col);
    WalkIffFollowing(t, lua, vs, start, col);
  }

  lemma {:induction false} ChainFollows(t: Table, lua: Lua, vs: seq<View>, start: Oid, col: seq<Reply>)
    requires WellFormed(t) && Served(t, lua) && ListOk(vs) && Orderly(vs) && Comparable(vs, start)
    requires Chain(t, lua, vs, start, col)
    ensures Following(t, lua, vs, start, col) && Comparable(vs, Cursor(start, col))
  {
    hide Replies, Follows, WellFormed, Served, ListOk, Sorted, Safe, Comparable;
    if col != [] {
      var pre, r := col[..|col| - 1], col[|col| - 1];
      ChainFollows(t, lua, vs, start, pre);
      RepliesFollow(t, lua, vs, Cursor(start, pre), r);
      StaysComparable(t, lua, vs, Cursor(start, pre), r);
    }
  }

  /** A walk at its end lists every variable RFC 3416 asks for if and only if none is named like a view. */
  lemma WalkIsComplete(t: Table, lua: Lua, vs: seq<View>, start: Oid, col: seq<Reply>, m: nat)
    requires IsWalk(t, lua, vs, start, col, m) && m < |col|
    ensures (forall w :: WantedIn(t, lua, vs, start, w) ==> Listed(col[..m], w)) <==>
      forall w :: WantedIn(t, lua, vs, start, w) ==> !IsViewOid(vs, w)
  {
    hide WantedIn, IsViewOid, Lookup, Less;
    forall w | Listed(col[..m], w)
      ensures !IsViewOid(vs, w)
    {
      var i :| 0 <= i < m && col[..m][i].oid == w;
    }
  }

  /** What a column is from any start at all: the end throughout, or some first answer and a walk from there. */
  ghost predicate WalksOn(t: Table, lua: Lua, vs: seq<View>, start: Oid, col: seq<Reply>) {
    && (col != [] && col[0].Next? ==> Walks(t, lua, vs, col[0].oid, col[1..]))
    && (col != [] && !col[0].Next? ==> forall i :: 0 <= i < |col| ==> col[i] == EndOfView(start))
  }

  /** Even after a request that wraps around, the column is a walk from its first answer on. */
  lemma ChainWalksOn(t: Table, lua: Lua, vs: seq<View>, start: Oid, col: seq<Reply>)
    requires WellFormed(t) && Served(t, lua) && ListOk(vs) && Orderly(vs) && Chain(t, lua, vs, start, col)
    ensures WalksOn(t, lua, vs, start, col)
  {
    hide Replies, Walks, Comparable;
    if col != [] {
      FirstReplies(t, lua, vs, start, col);
      if col[0].Next? {
        ChainTail(t, lua, vs, start, col);
        AnswerComparable(t, lua, vs, start, col[0]);
        ChainIsWalk(t, lua, vs, col[0].oid, col[1..]);
      } else {
        EndForEver(t, lua, vs, start, col);
      }
    }
  }

  lemma {:induction false} FirstReplies(t: Table, lua: Lua, vs: seq<View>, start: Oid, col: seq<Reply>)
    requires col != [] && Chain(t, lua, vs, start, col)
    ensures Replies(t, lua, vs, start, col[0])
  {
    hide Replies;
    if |col| > 1 {
      FirstReplies(t, lua, vs, start, col[..|col| - 1]);
    }
  }

  lemma {:induction false} ChainTail(t: Table, lua: Lua, vs: seq<View>, start: Oid, col: seq<Reply>)
    requires col != [] && Chain(t, lua, vs, start, col)
    ensures Chain(t, lua, vs, col[0].oid, col[1..])
  {
    hide Replies;
    if |col| > 1 {
      var pre := col[..|col| - 1];
      ChainTail(t, lua, vs, start, pre);
      assert pre[1..] == col[1..][..|col| - 2];
    }
  }

  lemma {:induction false} EndForEver(t: Table, lua: Lua, vs: seq<View>, start: Oid, col: seq<Reply>)
    requires col != [] && Chain(t, lua, vs, start, col) && !col[0].Next?
    ensures forall i :: 0 <= i < |col| ==> col[i] == EndOfView(start)
  {
    hide InOrder, Lookup;
    if |col| > 1 {
      var pre := col[..|col| - 1];
      EndForEver(t, lua, vs, start, pre);
      FirstReplies(t, lua, vs, start, col);
      SameReply(t, lua, vs, start, col[0], col[|col| - 1]);
    }
  }

  /** The answer to a request is determined. */
  lemma SameReply(t: Table, lua: Lua, vs: seq<View>, orig: Oid, r: Reply, s: Reply)
    requires Replies(t, lua, vs, orig, r) && Replies(t, lua, vs, orig, s)
    ensures r == s
  {
    hide Lookup;
    var n: nat :| InOrder(t, lua, vs, orig, n, r.Name());
    var m: nat :| InOrder(t, lua, vs, orig, m, s.Name());
    hide Answers;
    if n < m {
      SameAnswer(t, lua, vs[n].oid, orig, r.Name(), None);
    } else if m < n {
      SameAnswer(t, lua, vs[m].oid, orig, None, s.Name());
    } else if n < |vs| {
      SameAnswer(t, lua, vs[n].oid, orig, r.Name(), s.Name());
    }
  }

  lemma SameAnswer(t: Table, lua: Lua, view: Oid, orig: Oid, r: Option<Oid>, s: Option<Oid>)
    requires Answers(t, lua, view, orig, r) && Answers(t, lua, view, orig, s)
    ensures r == s
  {
    hide IsNext, CmpSpec;
    if view <= orig {
      NextIsUnique(t, lua, view, orig, r, s);
    } else if CmpSpec(orig, view) < 0 {
      NextIsUnique(t, lua, view, view, r, s);
    }
  }

  lemma WalkEnds(t: Table, lua: Lua, vs: seq<View>, start: Oid, pre: seq<Reply>, r: Reply, m: nat)
    requires IsWalk(t, lua, vs, start, pre, m) && m < |pre| && Follows(t, lua, vs, Cursor(start, pre), r)
    ensures IsWalk(t, lua, vs, start, pre + [r], m)
  {
    hide Follows, Due, Open, Listed;
    var col := pre + [r];
    assert col[..m] == pre[..m];
    assert Cursor(start, pre) == Cursor(start, pre[..m]);
    EndStays(t, lua, vs, start, pre[..m], r);
  }

  lemma WalkGrows(t: Table, lua: Lua, vs: seq<View>, start: Oid, pre: seq<Reply>, r: Reply, m: nat)
    requires IsWalk(t, lua, vs, start, pre, m) && m >= |pre| && Follows(t, lua, vs, Cursor(start, pre), r)
    ensures IsWalk(t, lua, vs, start, pre + [r], if r.Next? then |pre| + 1 else |pre|)
  {
    hide Follows, Due, Open, Listed;
    var col := pre + [r];
    assert pre[..m] == pre && col[..|pre|] == pre && col[..|col|] == col;
    Extend(t, lua, vs, start, pre, r);
  }

  lemma NothingYet(t: Table, lua: Lua, vs: seq<View>, start: Oid)
    ensures Open(t, lua, vs, start, [])
  {
  }

  /** With every variable due listed, a column stays at the end. */
  lemma EndStays(t: Table, lua: Lua, vs: seq<View>, start: Oid, col: seq<Reply>, r: Reply)
    requires Open(t, lua, vs, start, col) && Follows(t, lua, vs, Cursor(start, col), r)
    requires forall w :: Due(t, lua, vs, start, w) ==> Listed(col, w)
    ensures r == EndOfView(Cursor(start, col))
  {
    hide Lookup, Due, AnswersIn, Less;
    if r.Next? {
      Increases(t, lua, vs, start, col, r);
      var i :| 0 <= i < |col| && col[i].oid == r.oid;
      Trichotomy(r.oid, r.oid);
    }
  }

  /** One more answer to an open column keeps it open, or shows that nothing is left. */
  lemma Extend(t: Table, lua: Lua, vs: seq<View>, start: Oid, col: seq<Reply>, r: Reply)
    requires Open(t, lua, vs, start, col) && Follows(t, lua, vs, Cursor(start, col), r)
    ensures r.Next? ==> Open(t, lua, vs, start, col + [r])
    ensures !r.Next? ==> r == EndOfView(Cursor(start, col)) && forall w :: Due(t, lua, vs, start, w) ==> Listed(col, w)
  {
    hide Lookup, IsVar, Covers, IsViewOid, Less;
    if r.Next? {
      Increases(t, lua, vs, start, col, r);
      hide Follows, Due;
      var n, all := |col|, col + [r];
      assert all[n] == r && forall i :: 0 <= i < n ==> all[i] == col[i];
      assert Cursor(start, all) == r.oid;
      forall w | Due(t, lua, vs, start, w)
        ensures Listed(all, w) || Less(r.oid, w)
      {
        if Listed(col, w) {
          var i :| 0 <= i < n && col[i].oid == w;
          assert all[i].oid == w;
        } else if w == r.oid {
          assert all[n].oid == w;
        }
      }
    }
  }

  /** The answer is due, comes after the whole column, and nothing due lies between. */
  lemma Increases(t: Table, lua: Lua, vs: seq<View>, start: Oid, col: seq<Reply>, r: Reply)
    requires Open(t, lua, vs, start, col) && Follows(t, lua, vs, Cursor(start, col), r) && r.Next?
    ensures Due(t, lua, vs, start, r.oid) && Lookup(t, lua, r.oid) == Some(r.value)
    ensures forall i :: 0 <= i < |col| ==> Less(col[i].oid, r.oid)
    ensures forall w :: Due(t, lua, vs, start, w) && !Listed(col, w) ==> Le(r.oid, w)
  {
    hide Lookup, IsVar, Covers, IsViewOid;
    var e, n := Cursor(start, col), |col|;
    if n > 0 {
      LessTrans(start, e, r.oid);
      forall i | 0 <= i < n - 1
        ensures Less(col[i].oid, r.oid)
      {
        LessTrans(col[i].oid, e, r.oid);
      }
    }
  }

  /** The name of a variable fits the request buffers. */
  lemma NameFits(t: Table, lua: Lua, v: Oid)
    requires WellFormed(t) && Served(t, lua) && IsVar(t, lua, v)
    ensures Fits32(v) && |v| <= OID_MAX_LEN
  {
    var d := Walk(t, v, 0);
    var c := v[..d];
    assert NodeOk(t, c);
    var h := lua[t[c].callback];
    HandlerGetIndex(h, v[d..]);
    assert v == c + v[d..];
  }

  /** Every column's cursor is where its chain of answers has led. */
  ghost predicate Columns(t: Table, lua: Lua, vs: seq<View>, starts: seq<Oid>, oids: seq<Oid>, rows: seq<seq<Reply>>) {
    && |oids| == |starts| && Grid(rows, |starts|)
    && forall j :: 0 <= j < |starts| ==>
         && Chain(t, lua, vs, starts[j], Column(rows, |starts|, j))
         && oids[j] == Cursor(starts[j], Column(rows, |starts|, j)) && Proper(oids[j])
  }

  lemma AddRow(t: Table, lua: Lua, vs: seq<View>, starts: seq<Oid>, oids: seq<Oid>, rows: seq<seq<Reply>>,
    row: seq<Reply>, oids': seq<Oid>)
    requires Columns(t, lua, vs, starts, oids, rows) && |row| == |oids'| == |starts|
    requires forall j :: 0 <= j < |row| ==>
      Replies(t, lua, vs, oids[j], row[j]) && oids'[j] == row[j].oid && Proper(oids'[j])
    ensures Columns(t, lua, vs, starts, oids', rows + [row])
  {
    hide Replies, Proper;
    var n, all := |starts|, rows + [row];
    forall j | 0 <= j < n
      ensures Chain(t, lua, vs, starts[j], Column(all, n, j)) && oids'[j] == Cursor(starts[j], Column(all, n, j))
    {
      var col := Column(rows, n, j);
      assert Column(all, n, j) == col + [row[j]];
      assert (col + [row[j]])[..|col|] == col;
    }
  }

  /** Answer all columns once, replacing each requested OID by the one answered. */
  method AnswerRow(tree: Tree, lua: Lua, c: Community, oids: array<Oid>) returns (row: seq<Reply>)
    requires tree.Valid() && Served(tree.table, lua) && c.Ok() && c.ro != []
    requires forall j :: 0 <= j < oids.Length ==> Proper(oids[j])
    modifies oids
    ensures tree.Valid() && |row| == oids.Length
    ensures forall j :: 0 <= j < |row| ==>
      Replies(tree.table, lua, c.ro, old(oids[j]), row[j]) && oids[j] == row[j].oid && Proper(oids[j])
  {
    hide Tree.Valid, Served, Replies, Proper, Community.Ok;
    row := [];
    for j := 0 to oids.Length
      invariant tree.Valid() && |row| == j
      invariant forall i :: 0 <= i < j ==>
        Replies(tree.table, lua, c.ro, old(oids[i]), row[i]) && oids[i] == row[i].oid && Proper(oids[i])
      invariant forall i :: j <= i < oids.Length ==> oids[i] == old(oids[i])
    {
      var r := GetNext(tree, lua, c, oids[j]);
      StaysProper(tree, lua, c.ro, oids[j], r);
      oids[j] := r.oid;
      row := row + [r];
    }
  }

  lemma StaysProper(tree: Tree, lua: Lua, vs: seq<View>, orig: Oid, r: Reply)
    requires tree.Valid() && Served(tree.table, lua) && Proper(orig) && Replies(tree.table, lua, vs, orig, r)
    ensures Proper(r.oid)
  {
    hide Tree.Valid, InOrder;
    if r.Next? {
      tree.RootAt();
      tree.NodeAt([]);
      NameFits(tree.table, lua, r.oid);
    }
  }

  lemma StaysComparable(t: Table, lua: Lua, vs: seq<View>, orig: Oid, r: Reply)
    requires WellFormed(t) && Served(t, lua) && ListOk(vs) && Safe(vs) && Comparable(vs, orig)
      && Replies(t, lua, vs, orig, r)
    ensures Comparable(vs, r.oid)
  {
    hide Comparable;
    if r.Next? {
      AnswerComparable(t, lua, vs, orig, r);
    }
  }

  lemma AnswerComparable(t: Table, lua: Lua, vs: seq<View>, orig: Oid, r: Reply)
    requires WellFormed(t) && Served(t, lua) && ListOk(vs) && Safe(vs) && Replies(t, lua, vs, orig, r) && r.Next?
    ensures Comparable(vs, r.oid)
  {
    hide WellFormed, Served, Safe, PrefixFree, Comparable, CmpSpec;
    var n: nat :| InOrder(t, lua, vs, orig, n, r.Name());
    assert vs[n].oid <= r.oid;
    NameFits(t, lua, r.oid);
    NamesAreComparable(vs, r.oid);
  }

  /**
   GETBULK: `repeat` rows of answers, one for each requested OID. Every answer is the agent's next one after the
   answer before it; in a list of views that compare soundly, the columns are walks.
   */
  method BulkGet(tree: Tree, lua: Lua, c: Community, starts: seq<Oid>, repeat: nat)
    returns (out: seq<Reply>, ghost rows: seq<seq<Reply>>)
    requires tree.Valid() && Served(tree.table, lua) && c.Ok() && c.ro != []
    requires forall j :: 0 <= j < |starts| ==> Proper(starts[j])
    ensures |rows| == repeat && Grid(rows, |starts|) && out == Concat(rows) && |out| == repeat * |starts|
    ensures forall j :: 0 <= j < |starts| ==> Chain(tree.table, lua, c.ro, starts[j], Column(rows, |starts|, j))
    ensures Orderly(c.ro) ==> forall j :: 0 <= j < |starts| ==>
      && WalksOn(tree.table, lua, c.ro, starts[j], Column(rows, |starts|, j))
      && (Comparable(c.ro, starts[j]) ==> Walks(tree.table, lua, c.ro, starts[j], Column(rows, |starts|, j)))
  {
    hide Tree.Valid, Served, Replies, Proper, Community.Ok, Chain, Walks, WalksOn;
    var oids := new Oid[|starts|](i requires 0 <= i < |starts| => starts[i]);
    out, rows := [], [];
    var left: nat := repeat;
    assert Columns(tree.table, lua, c.ro, starts, oids[..], rows) by {
      NoRows(tree.table, lua, c.ro, starts, oids[..]);
    }
    while left > 0
      invariant tree.Valid() && left <= repeat && |rows| == repeat - left && out == Concat(rows)
      invariant Columns(tree.table, lua, c.ro, starts, oids[..], rows)
    {
      left := left - 1;
      ghost var before := oids[..];
      var row := AnswerRow(tree, lua, c, oids);
      AddRow(tree.table, lua, c.ro, starts, before, rows, row, oids[..]);
      assert (rows + [row])[..|rows|] == rows;
      rows := rows + [row];
      out := out + row;
    }
    ConcatCount(rows, |starts|);
    if Orderly(c.ro) {
      forall j | 0 <= j < |starts|
        ensures WalksOn(tree.table, lua, c.ro, starts[j], Column(rows, |starts|, j))
        ensures Comparable(c.ro, starts[j]) ==> Walks(tree.table, lua, c.ro, starts[j], Column(rows, |starts|, j))
      {
        ColumnWalks(tree, lua, c, starts[j], Column(rows, |starts|, j));
      }
    }
  }

  lemma ColumnWalks(tree: Tree, lua: Lua, c: Community, start: Oid, col: seq<Reply>)
    requires tree.Valid() && Served(tree.table, lua) && c.Ok() && Orderly(c.ro)
    requires Chain(tree.table, lua, c.ro, start, col)
    ensures WalksOn(tree.table, lua, c.ro, start, col)
    ensures Comparable(c.ro, start) ==> Walks(tree.table, lua, c.ro, start, col)
  {
    hide Tree.Valid, WalksOn, Walks, Comparable, Chain, Served;
    tree.RootAt();
    tree.NodeAt([]);
    ChainWalksOn(tree.table, lua, c.ro, start, col);
    if Comparable(c.ro, start) {
      ChainIsWalk(tree.table, lua, c.ro, start, col);
    }
  }

  lemma NoRows(t: Table, lua: Lua, vs: seq<View>, starts: seq<Oid>, oids: seq<Oid>)
    requires oids == starts && forall j :: 0 <= j < |starts| ==> Proper(starts[j])
    ensures Columns(t, lua, vs, starts, oids, [])
  {
  }
}
