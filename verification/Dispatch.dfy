/** Answering requests over all the views a caller may use: GET, GETNEXT, GETBULK and SET. */
module Dispatch {
  import opened Oids
  import opened Asn1
  import opened MibTable
  import opened NextSearch
  import opened MibTree
  import opened TreeSearch
  import opened Views

  /** The request orders correctly against every view of the list. */
  ghost predicate Comparable(vs: seq<View>, orig: Oid) {
    Proper(orig) && forall i :: 0 <= i < |vs| ==> CmpIsSafe(orig, vs[i].oid)
  }

  /** A variable the caller can see that comes after the request. */
  ghost predicate WantedIn(t: Table, lua: Lua, vs: seq<View>, orig: Oid, w: Oid) {
    IsVar(t, lua, w) && Covers(vs, w) && Less(orig, w)
  }

  ghost predicate IsViewOid(vs: seq<View>, w: Oid) {
    exists i :: 0 <= i < |vs| && vs[i].oid == w
  }

  /** What RFC 3416 asks of GETNEXT: the least variable after the request in the union of the views. */
  ghost predicate IsNextIn(t: Table, lua: Lua, vs: seq<View>, orig: Oid, r: Option<Oid>) {
    match r
    case Some(v) => WantedIn(t, lua, vs, orig, v) && forall w :: WantedIn(t, lua, vs, orig, w) ==> Le(v, w)
    case None => forall w :: !WantedIn(t, lua, vs, orig, w)
  }

  /**
   What the agent answers, for every list of views and every request: the answer of the first view, in the order of
   the list, whose search gives one. The first `n` views give none.
   */
  ghost predicate InOrder(t: Table, lua: Lua, vs: seq<View>, orig: Oid, n: nat, r: Option<Oid>) {
    && n <= |vs| && (n == |vs| <==> r == None)
    && (forall i :: 0 <= i < n ==> Answers(t, lua, vs[i].oid, orig, None))
    && (n < |vs| ==> Answers(t, lua, vs[n].oid, orig, r))
  }

  /** View `i` comes before the view that answers, or is that view; every view does when none answers. */
  ghost predicate UpTo(vs: seq<View>, n: nat, i: nat)
    requires i < |vs|
  {
    n < |vs| ==> i == n || Less(vs[i].oid, vs[n].oid)
  }

  /**
   For every request of 32-bit sub-ids and every list of views, in whatever order: the agent's answer is the one RFC
   3416 asks for if and only if, among the views whose OIDs do not come after that of the answering one, the search
   is right in those already searched and there is nothing to find in the others.
   */
  lemma AnswerIsNextIn(t: Table, lua: Lua, vs: seq<View>, orig: Oid, n: nat, r: Option<Oid>)
    requires ListOk(vs) && Proper(orig) && InOrder(t, lua, vs, orig, n, r)
    ensures IsNextIn(t, lua, vs, orig, r) <==>
      forall i :: 0 <= i < |vs| && UpTo(vs, n, i) ==>
        if i <= n then SearchIsRight(t, lua, vs[i].oid, orig) else forall w :: !Wanted(t, lua, vs[i].oid, orig, w)
  {
    hide Answers, SearchIsRight, IsVar, Less, UpTo;
    forall i | 0 <= i <= n && i < |vs|
      ensures SearchIsRight(t, lua, vs[i].oid, orig) <==> IsNext(t, lua, vs[i].oid, orig, Given(n, i, r))
    {
      AnswerIsNext(t, lua, vs[i].oid, orig, Given(n, i, r));
    }
    if forall i :: 0 <= i < |vs| && UpTo(vs, n, i) ==> IsNext(t, lua, vs[i].oid, orig, Given(n, i, r)) {
      NextOfFirst(t, lua, vs, orig, n, r);
    }
    if IsNextIn(t, lua, vs, orig, r) {
      FirstOfNext(t, lua, vs, orig, n, r);
    }
  }

  /** What a view has to contribute if the `n`-th one has the answer. */
  ghost function Given(n: nat, i: nat, r: Option<Oid>): Option<Oid> {
    if i == n then r else None
  }

  /** In a sorted list these are the views up to the one that answers; the search has to be right in each of them. */
  lemma AnswerInSorted(t: Table, lua: Lua, vs: seq<View>, orig: Oid, n: nat, r: Option<Oid>)
    requires ListOk(vs) && Sorted(vs) && Proper(orig) && InOrder(t, lua, vs, orig, n, r)
    ensures IsNextIn(t, lua, vs, orig, r) <==>
      forall i :: 0 <= i <= n && i < |vs| ==> SearchIsRight(t, lua, vs[i].oid, orig)
  {
    hide Answers, InOrder, IsNextIn, SearchIsRight, IsVar, Less;
    AnswerIsNextIn(t, lua, vs, orig, n, r);
    forall i | 0 <= i < |vs|
      ensures UpTo(vs, n, i) <==> i <= n
    {
      if n < i {
        Trichotomy(vs[n].oid, vs[i].oid);
      }
    }
  }

  /** If the first view that has a successor gives it, that is the successor in the union. */
  lemma NextOfFirst(t: Table, lua: Lua, vs: seq<View>, orig: Oid, n: nat, r: Option<Oid>)
    requires ListOk(vs) && n <= |vs| && (n == |vs| <==> r == None)
    requires forall i :: 0 <= i < |vs| && UpTo(vs, n, i) ==> IsNext(t, lua, vs[i].oid, orig, Given(n, i, r))
    ensures IsNextIn(t, lua, vs, orig, r)
  {
    hide IsVar, Less;
    if r.Some? {
      assert UpTo(vs, n, n);
      assert vs[n].oid <= r.value;
    }
    forall w | WantedIn(t, lua, vs, orig, w)
      ensures r.Some? && Le(r.value, w)
    {
      var i :| 0 <= i < |vs| && vs[i].oid <= w;
      assert Wanted(t, lua, vs[i].oid, orig, w);
      if !UpTo(vs, n, i) {
        Trichotomy(vs[n].oid, vs[i].oid);
        Subtrees(vs[n].oid, vs[i].oid, r.value, w);
      }
    }
  }

  /** If the agent's answer is the successor in the union, nothing precedes it in the views before. */
  lemma FirstOfNext(t: Table, lua: Lua, vs: seq<View>, orig: Oid, n: nat, r: Option<Oid>)
    requires ListOk(vs) && InOrder(t, lua, vs, orig, n, r) && IsNextIn(t, lua, vs, orig, r)
    ensures forall i :: 0 <= i < |vs| && UpTo(vs, n, i) ==> IsNext(t, lua, vs[i].oid, orig, Given(n, i, r))
  {
    hide IsVar, Less, CmpSpec;
    forall i | 0 <= i < |vs| && UpTo(vs, n, i)
      ensures IsNext(t, lua, vs[i].oid, orig, Given(n, i, r))
    {
      forall w | Wanted(t, lua, vs[i].oid, orig, w)
        ensures i == n && Le(r.value, w)
      {
        assert WantedIn(t, lua, vs, orig, w);
        if i != n {
          assert vs[n].oid <= r.value;
          Subtrees(vs[i].oid, vs[n].oid, w, r.value);
          Trichotomy(w, r.value);
        }
      }
    }
  }

  /** Where every comparison is sound, the agent answers as RFC 3416 asks, leaving out variables named like a view. */
  ghost predicate AnswersIn(t: Table, lua: Lua, vs: seq<View>, orig: Oid, r: Option<Oid>) {
    match r
    case Some(v) =>
      && WantedIn(t, lua, vs, orig, v) && !IsViewOid(vs, v)
      && forall w :: WantedIn(t, lua, vs, orig, w) && !IsViewOid(vs, w) ==> Le(v, w)
    case None => forall w :: WantedIn(t, lua, vs, orig, w) ==> IsViewOid(vs, w)
  }

  lemma OrderGives(t: Table, lua: Lua, vs: seq<View>, orig: Oid, n: nat, r: Option<Oid>)
    requires ListOk(vs) && Sorted(vs) && Comparable(vs, orig) && InOrder(t, lua, vs, orig, n, r)
    ensures AnswersIn(t, lua, vs, orig, r)
  {
    hide Answers, AnswersIn, ViewGives, CmpIsSafe;
    forall i | 0 <= i <= n && i < |vs|
      ensures ViewGives(t, lua, vs[i].oid, orig, if i < n then None else r)
    {
      SearchGives(t, lua, vs[i].oid, orig, if i < n then None else r);
    }
    if n < |vs| {
      FirstViewWins(t, lua, vs, n, orig, r.value);
    } else {
      NoViewWins(t, lua, vs, orig);
    }
  }

  /** What one view contributes: its least variable after the request, other than the view's own OID. */
  ghost predicate ViewGives(t: Table, lua: Lua, view: Oid, orig: Oid, r: Option<Oid>) {
    match r
    case Some(v) =>
      && IsVar(t, lua, v) && view < v && Less(orig, v)
      && forall w :: IsVar(t, lua, w) && view < w && Less(orig, w) ==> Le(v, w)
    case None => forall w :: IsVar(t, lua, w) && view < w ==> !Less(orig, w)
  }

  lemma SearchGives(t: Table, lua: Lua, view: Oid, orig: Oid, r: Option<Oid>)
    requires Fits32(view) && Fits32(orig) && |view| < ID_HALF && |orig| < ID_HALF && CmpIsSafe(orig, view)
    requires Answers(t, lua, view, orig, r)
    ensures ViewGives(t, lua, view, orig, r)
  {
    CmpMeaning(orig, view);
    Trichotomy(orig, view);
    forall w | IsVar(t, lua, w) && view <= w
      ensures view <= orig ==> (Wanted(t, lua, view, orig, w) <==> view < w && Less(orig, w))
      ensures !(view <= orig) && Less(orig, view) ==> (Wanted(t, lua, view, view, w) <==> view < w) && Less(orig, w)
      ensures !(view <= orig) && Less(view, orig) ==> !Less(orig, w)
    {
      PrefixIsLe(view, w);
      Trichotomy(view, w);
      if view <= orig {
        PrefixIsLe(view, orig);
        Trichotomy(view, orig);
      } else if Less(orig, view) {
        LeTrans(orig, view, w);
      } else {
        PastSubtree(view, w, orig);
        Trichotomy(w, orig);
      }
    }
  }

  /** Everything below an earlier view precedes everything below a later one. */
  lemma ViewsAreOrdered(vs: seq<View>, i: nat, j: nat, v: Oid, w: Oid)
    requires ListOk(vs) && Sorted(vs) && i < j < |vs| && vs[i].oid <= v && vs[j].oid <= w
    ensures Less(v, w)
  {
    Subtrees(vs[i].oid, vs[j].oid, v, w);
  }

  /** Two subtrees, neither inside the other, lie apart in the order of their roots. */
  lemma Subtrees(a: Oid, b: Oid, v: Oid, w: Oid)
    requires Less(a, b) && !(a <= b) && !(b <= a) && a <= v && b <= w
    ensures Less(v, w)
  {
    PrefixIsLe(b, w);
    LeTrans(a, b, w);
    assert !(a <= w);
    PastSubtree(a, v, w);
  }

  /** A name below one view orders correctly against all of them. */
  lemma NamesAreComparable(vs: seq<View>, v: Oid)
    requires ListOk(vs) && Safe(vs) && Covers(vs, v) && Proper(v)
    ensures Comparable(vs, v)
  {
    var j :| 0 <= j < |vs| && vs[j].oid <= v;
    forall i | 0 <= i < |vs|
      ensures CmpIsSafe(v, vs[i].oid)
    {
      SameSide(vs[j].oid, v, vs[i].oid);
      assert i != j ==> !(vs[j].oid <= vs[i].oid);
    }
  }

  /** What lies below an OID compares with an OID elsewhere as that OID does. */
  lemma SameSide(p: Oid, v: Oid, o: Oid)
    requires p <= v
    ensures !(p <= o) && !(o <= p) ==> CmpSpec(v, o) == CmpSpec(p, o) && (CmpIsSafe(v, o) <==> CmpIsSafe(p, o))
    ensures o <= p ==> CmpIsSafe(v, o) && (|v| < ID_HALF ==> CmpSpec(v, o) >= 0)
  {
    var k := Lcp(p, o);
    assert v[..|p|] == p;
    if !(p <= o) && !(o <= p) {
      assert k < |p| && k < |o| by {
        assert k == |p| ==> p <= o;
        assert k == |o| ==> o <= p;
      }
      assert Lcp(v, o) == k;
    } else if o <= p {
      assert Lcp(v, o) == |o|;
    }
  }

  /** A GETNEXT reply for one varbind. */
  datatype Reply = Next(oid: Oid, value: Value) | EndOfView(oid: Oid) | NoAccess(oid: Oid)
  {
    function Name(): Option<Oid> {
      if Next? then Some(oid) else None
    }
  }

  /** `r` answers `orig`: the agent's next variable with its value, or the request repeated at the end. */
  ghost predicate Replies(t: Table, lua: Lua, vs: seq<View>, orig: Oid, r: Reply) {
    && !r.NoAccess? && (exists n: nat :: InOrder(t, lua, vs, orig, n, r.Name()))
    && (r.Next? ==> Lookup(t, lua, r.oid) == Some(r.value))
    && (r.EndOfView? ==> r.oid == orig)
  }

  /** After fruitless searches of the first `n` views nothing the agent would answer lies below them. */
  ghost predicate NothingIn(t: Table, lua: Lua, vs: seq<View>, n: nat, orig: Oid)
    requires n <= |vs|
  {
    forall i :: 0 <= i < n ==> ViewGives(t, lua, vs[i].oid, orig, None)
  }

  lemma FirstViewWins(t: Table, lua: Lua, vs: seq<View>, n: nat, orig: Oid, v: Oid)
    requires ListOk(vs) && Sorted(vs) && n < |vs| && NothingIn(t, lua, vs, n, orig)
      && ViewGives(t, lua, vs[n].oid, orig, Some(v))
    ensures AnswersIn(t, lua, vs, orig, Some(v))
  {
    assert Covers(vs, v);
    assert !IsViewOid(vs, v);
    forall w | WantedIn(t, lua, vs, orig, w) && !IsViewOid(vs, w)
      ensures Le(v, w)
    {
      var i :| 0 <= i < |vs| && vs[i].oid <= w;
      assert vs[i].oid < w;
      if i > n {
        ViewsAreOrdered(vs, n, i, v, w);
      }
    }
  }

  lemma NoViewWins(t: Table, lua: Lua, vs: seq<View>, orig: Oid)
    requires NothingIn(t, lua, vs, |vs|, orig)
    ensures AnswersIn(t, lua, vs, orig, None)
  {
    forall w | WantedIn(t, lua, vs, orig, w)
      ensures IsViewOid(vs, w)
    {
      var i :| 0 <= i < |vs| && vs[i].oid <= w;
      assert ViewGives(t, lua, vs[i].oid, orig, None);
    }
  }

  /** GETNEXT over all read views of a community, in order, until one has an answer. */
  method GetNext(tree: Tree, lua: Lua, c: Community?, orig: Oid) returns (r: Reply)
    requires tree.Valid() && Served(tree.table, lua) && Proper(orig)
    requires c != null ==> c.Ok()
    ensures c == null ==> r == NoAccess(orig)
    ensures c != null && c.ro == [] ==> r == NoAccess(orig)
    ensures c != null && c.ro != [] ==> Replies(tree.table, lua, c.ro, orig, r)
  {
    hide Tree.Valid, Served, Lookup, Answers, After, PrefixFree;
    r := NoAccess(orig);
    if c == null {
      return;
    }
    var view: View? := null;
    ghost var n := 0;
    while true
      invariant n <= |c.ro| && view == if n == 0 then null else Visit(c.ro, n - 1)
      invariant n > 0 ==> view != null
      invariant forall i :: 0 <= i < n ==> Answers(tree.table, lua, c.ro[i].oid, orig, None)
      invariant r == if n == 0 then NoAccess(orig) else EndOfView(orig)
      decreases |c.ro| - n
    {
      view := c.NextView(Read, view);
      VisitsAll(c.ro, n);
      if view == null {
        assert r.Name() == None && InOrder(tree.table, lua, c.ro, orig, n, r.Name());
        return;
      }
      Proper32(view.oid);
      var a, calls := SearchNext(tree, view.oid, orig, lua);
      if a.Found? {
        r := Next(a.oid, a.value);
        assert InOrder(tree.table, lua, c.ro, orig, n, r.Name());
        return;
      }
      r := EndOfView(a.oid);
      n := n + 1;
    }
  }

  /** The search gets as far as a view that covers the request: it compares as smaller than none before. */
  ghost predicate Reaches(vs: seq<View>, orig: Oid) {
    exists m :: 0 <= m < |vs| && vs[m].oid <= orig && NotAhead(vs, orig, m)
  }

  ghost predicate NotAhead(vs: seq<View>, orig: Oid, m: int) {
    forall k :: 0 <= k < m && k < |vs| ==> CmpSpec(orig, vs[k].oid) >= 0
  }

  /** When the request compares as smaller than a view, even by wrapping around, no view from there on covers it. */
  lemma NoLaterCover(vs: seq<View>, n: nat, orig: Oid)
    requires ListOk(vs) && Orderly(vs) && Proper(orig) && n < |vs| && CmpSpec(orig, vs[n].oid) < 0
    ensures forall i :: n <= i < |vs| ==> !(vs[i].oid <= orig)
  {
    hide CmpSpec, CmpIsSafe, Less;
    forall i | n <= i < |vs|
      ensures !(vs[i].oid <= orig)
    {
      var v, w := vs[n].oid, vs[i].oid;
      if w <= orig {
        SameSide(w, orig, v);
        CmpMeaning(w, v);
        if n < i {
          Trichotomy(v, w);
        }
      }
    }
  }

  /** Over a list that is sorted and compares soundly, every covered request is reached. */
  lemma OrderlyReaches(vs: seq<View>, orig: Oid)
    requires ListOk(vs) && Orderly(vs) && Proper(orig)
    ensures Reaches(vs, orig) <==> Covers(vs, orig)
  {
    hide CmpSpec, Orderly, ListOk;
    if Covers(vs, orig) {
      var m :| 0 <= m < |vs| && vs[m].oid <= orig;
      forall k | 0 <= k < m
        ensures CmpSpec(orig, vs[k].oid) >= 0
      {
        if CmpSpec(orig, vs[k].oid) < 0 {
          NoLaterCover(vs, k, orig);
        }
      }
      assert NotAhead(vs, orig, m);
    }
  }

  /**
   The views 1 and 2147483649, registered in this order, are sorted, yet a request below the second one compares as
   smaller than the first: it is covered and not reached, and GETNEXT goes back to the first view.
   */
  lemma SortedIsNotEnough(vs: seq<View>, orig: Oid)
    requires |vs| == 2 && vs[0].oid == [1] && vs[1].oid == [0x8000_0001] && orig == [0x8000_0001, 5]
    ensures ListOk(vs) && Sorted(vs) && Covers(vs, orig) && !Reaches(vs, orig)
    ensures InOrder(SINGLE, SINGLE_LUA, vs, orig, 0, Some([1, 0])) && Less([1, 0], orig)
  {
    var v, w := vs[0].oid, vs[1].oid;
    assert Lcp(orig, v) == 0 && Lcp(v, w) == 0;
    LessAt(v, w, 0);
    LessAt([1, 0], orig, 0);
    assert CmpSpec(orig, v) < 0;
    assert w <= orig && !(v <= orig);
    forall m | 0 <= m < 2 && vs[m].oid <= orig
      ensures !NotAhead(vs, orig, m)
    {
      assert m == 1;
    }
    hide IsVar, Lookup;
    forall u | v <= u
      ensures IsVar(SINGLE, SINGLE_LUA, u) <==> u == [1, 0]
    {
      SingleVar(u);
    }
    LessAt(v, [1, 0], 1);
  }

  lemma StartsBehind(vs: seq<View>, orig: Oid)
    ensures NotAhead(vs, orig, 0)
  {
  }

  lemma NotReached(vs: seq<View>, orig: Oid, n: nat)
    requires n <= |vs| && (n < |vs| ==> CmpSpec(orig, vs[n].oid) < 0)
    ensures (forall i :: 0 <= i <= n && i < |vs| ==> !(vs[i].oid <= orig)) ==> !Reaches(vs, orig)
  {
    hide CmpSpec;
  }

  /** What view `n` contributes: it is reached, the search goes on behind it, or nothing further is reached. */
  lemma ReachesOrNot(vs: seq<View>, orig: Oid, n: nat)
    requires n < |vs| && NotAhead(vs, orig, n)
    ensures vs[n].oid <= orig ==> Reaches(vs, orig)
    ensures CmpSpec(orig, vs[n].oid) >= 0 ==> NotAhead(vs, orig, n + 1)
    ensures CmpSpec(orig, vs[n].oid) < 0 && (forall i :: 0 <= i <= n ==> !(vs[i].oid <= orig)) ==> !Reaches(vs, orig)
  {
    hide CmpSpec;
    if CmpSpec(orig, vs[n].oid) < 0 {
      NotReached(vs, orig, n);
    }
  }

  /** The request lies at or below a registered instance. */
  ghost predicate InstanceAt(t: Table, orig: Oid) {
    var d := Walk(t, orig, 0);
    orig[..d] in t && t[orig[..d]].Leaf?
  }

  /** The view whose search ends a fruitless GET: the first that the request compares as smaller than, or the last. */
  ghost predicate EndsAt(vs: seq<View>, orig: Oid, n: nat) {
    n < |vs| && NotAhead(vs, orig, n) && (CmpSpec(orig, vs[n].oid) < 0 || n == |vs| - 1)
  }

  /** What the search of one view reports when it finds no value. */
  ghost predicate ReportsOf(t: Table, view: Oid, orig: Oid, r: Answer) {
    r == if view <= orig && InstanceAt(t, orig) then NoSuchInstance else NoSuchObject
  }

  /** What a GET without a value reports: whatever the last search said. */
  ghost predicate Reports(t: Table, vs: seq<View>, orig: Oid, r: Answer) {
    if vs == [] then r == NoSuchObject else exists n: nat :: EndsAt(vs, orig, n) && ReportsOf(t, vs[n].oid, orig, r)
  }

  /** What RFC 3416 asks for: an instance is missing if the caller can see the object, else the object is. */
  ghost predicate ReportIsRight(t: Table, vs: seq<View>, orig: Oid, r: Answer) {
    r == if Covers(vs, orig) && InstanceAt(t, orig) then NoSuchInstance else NoSuchObject
  }

  lemma CoveredIsNotAhead(view: Oid, orig: Oid)
    requires view <= orig && Proper(orig)
    ensures CmpSpec(orig, view) >= 0
  {
    assert Lcp(orig, view) == |view|;
  }

  /**
   The report is the one RFC 3416 asks for if and only if the request is not at an instance the caller can see, or
   the last view of the list covers it and no view before ends the search. Over an orderly list the second part goes
   without saying.
   */
  lemma ReportMeaning(t: Table, vs: seq<View>, orig: Oid, r: Answer)
    requires ListOk(vs) && Proper(orig) && Reports(t, vs, orig, r)
    ensures ReportIsRight(t, vs, orig, r) <==>
      !(Covers(vs, orig) && InstanceAt(t, orig)) || (vs[|vs| - 1].oid <= orig && NotAhead(vs, orig, |vs| - 1))
    ensures Orderly(vs) ==>
      (ReportIsRight(t, vs, orig, r) <==> !(Covers(vs, orig) && InstanceAt(t, orig)) || vs[|vs| - 1].oid <= orig)
  {
    hide CmpSpec, InstanceAt, Proper, Orderly, ListOk;
    if vs != [] {
      var n: nat :| EndsAt(vs, orig, n) && ReportsOf(t, vs[n].oid, orig, r);
      var last := |vs| - 1;
      if vs[n].oid <= orig {
        CoveredIsNotAhead(vs[n].oid, orig);
      }
      if Orderly(vs) && vs[last].oid <= orig {
        forall k | 0 <= k < last
          ensures CmpSpec(orig, vs[k].oid) >= 0
        {
          if CmpSpec(orig, vs[k].oid) < 0 {
            NoLaterCover(vs, k, orig);
          }
        }
      }
    }
  }

  /** With the views 1 and 2, a row missing below 1 is reported as a missing object: the second search overwrites. */
  lemma ReportOverwritten(vs: seq<View>, r: Answer)
    requires |vs| == 2 && vs[0].oid == [1] && vs[1].oid == [2] && Reports(SINGLE, vs, [1, 5], r)
    ensures Covers(vs, [1, 5]) && InstanceAt(SINGLE, [1, 5]) && r == NoSuchObject
  {
    assert vs[0].oid <= [1, 5] && !(vs[1].oid <= [1, 5]);
    assert [1, 5][..1] == [1] && [1, 5][..2] == [1, 5];
    assert Walk(SINGLE, [1, 5], 0) == 1;
    CoveredIsNotAhead([1], [1, 5]);
    var n: nat :| EndsAt(vs, [1, 5], n) && ReportsOf(SINGLE, vs[n].oid, [1, 5], r);
    assert n != 0;
  }

  /** Having gone through the list, or stopped at a view that the request compares as smaller than. */
  lemma EndsHere(vs: seq<View>, orig: Oid, n: nat)
    ensures 0 < n == |vs| && NotAhead(vs, orig, n) ==> EndsAt(vs, orig, n - 1)
    ensures n < |vs| && NotAhead(vs, orig, n) && CmpSpec(orig, vs[n].oid) < 0 ==> EndsAt(vs, orig, n)
  {
    hide CmpSpec;
  }

  /** GET over all read views of a community. */
  method Get(tree: Tree, lua: Lua, c: Community?, orig: Oid) returns (access: bool, r: Answer)
    requires tree.Valid() && Served(tree.table, lua) && Proper(orig)
    requires c != null ==> c.Ok()
    ensures access <==> c != null
    ensures access ==> (r.Got? <==> IsVar(tree.table, lua, orig) && Reaches(c.ro, orig))
    ensures r.Got? ==> access && Lookup(tree.table, lua, orig) == Some(r.value)
    ensures access && Orderly(c.ro) ==> (r.Got? <==> IsVar(tree.table, lua, orig) && Covers(c.ro, orig))
    ensures access && !r.Got? ==> Reports(tree.table, c.ro, orig, r)
  {
    hide Tree.Valid, Served, Lookup, IsVar, Reaches, Covers, Orderly, Proper, ListOk, Within, Reports;
    r := NoSuchObject;
    if c == null {
      return false, r;
    }
    access := true;
    r := GetThrough(tree, lua, c, orig);
    if Orderly(c.ro) {
      OrderlyReaches(c.ro, orig);
    }
  }

  lemma SearchReports(tree: Tree, view: Oid, orig: Oid, depth: nat, r: Answer)
    requires tree.Valid() && (view <= orig ==> depth == Walk(tree.table, orig, 0) && orig[..depth] in tree.at)
    requires r == if view <= orig && tree.table[orig[..depth]].Leaf? then NoSuchInstance else NoSuchObject
    ensures ReportsOf(tree.table, view, orig, r)
  {
  }

  /** The loop over the read views; a request that compares as smaller than a view ends the search. */
  method GetThrough(tree: Tree, lua: Lua, c: Community, orig: Oid) returns (r: Answer)
    requires tree.Valid() && Served(tree.table, lua) && Proper(orig) && c.Ok()
    ensures r.Got? <==> IsVar(tree.table, lua, orig) && Reaches(c.ro, orig)
    ensures r.Got? ==> Lookup(tree.table, lua, orig) == Some(r.value)
    ensures !r.Got? ==> Reports(tree.table, c.ro, orig, r)
  {
    hide Tree.Valid, Served, Lookup, IsVar, After, PrefixFree, Within, CmpSpec, Reaches, NotAhead, Fits32;
    hide EndsAt, InstanceAt;
    r := NoSuchObject;
    StartsBehind(c.ro, orig);
    var view: View? := null;
    ghost var n := 0;
    while true
      invariant n <= |c.ro| && view == if n == 0 then null else Visit(c.ro, n - 1)
      invariant n > 0 ==> view != null
      invariant forall i :: 0 <= i < n ==> !(c.ro[i].oid <= orig && IsVar(tree.table, lua, orig))
      invariant NotAhead(c.ro, orig, n) && !r.Got?
      invariant if n == 0 then r == NoSuchObject else ReportsOf(tree.table, c.ro[n - 1].oid, orig, r)
      decreases |c.ro| - n
    {
      view := c.NextView(Read, view);
      VisitsAll(c.ro, n);
      if view == null {
        NotReached(c.ro, orig, n);
        EndsHere(c.ro, orig, n);
        return;
      }
      Proper32(view.oid);
      var node, depth, calls;
      node, depth, r, calls := tree.Search(view.oid, orig, MibTree.Get, lua);
      if !r.Got? {
        SearchReports(tree, view.oid, orig, depth, r);
      }
      var cmp := OidCmp(orig, view.oid);
      ReachesOrNot(c.ro, orig, n);
      EndsHere(c.ro, orig, n);
      if r.Got? || cmp < 0 {
        return;
      }
      n := n + 1;
    }
  }

  /** The handler call a SET of this name leads to, if the name lies below an instance. */
  ghost function SetCall(t: Table, orig: Oid): seq<Call> {
    var d := Walk(t, orig, 0);
    if orig[..d] in t && t[orig[..d]].Leaf? && d < |orig| then [Call(t[orig[..d]].callback, orig[d..])] else []
  }

  /** What the search of one view reports when it stores nothing: a refusal, or that there is nobody to ask. */
  ghost predicate SetReportsOf(t: Table, view: Oid, orig: Oid, r: Answer) {
    r == if !(view <= orig) || !InstanceAt(t, orig) then NoSuchObject
         else if SetCall(t, orig) == [] then NoSuchInstance else Refused
  }

  /** What a SET that stores nothing reports: whatever the last search said. */
  ghost predicate SetReports(t: Table, vs: seq<View>, orig: Oid, r: Answer) {
    exists n: nat :: EndsAt(vs, orig, n) && SetReportsOf(t, vs[n].oid, orig, r)
  }

  /**
   A refusal of the handler is reported as such if and only if the last view of the list covers the request and no
   view before ends the search.
   */
  lemma RefusalReported(t: Table, vs: seq<View>, orig: Oid, r: Answer)
    requires Proper(orig) && SetReports(t, vs, orig, r) && SetCall(t, orig) != []
    ensures r == Refused <==> vs[|vs| - 1].oid <= orig && NotAhead(vs, orig, |vs| - 1)
  {
    hide CmpSpec, Proper;
    var n: nat :| EndsAt(vs, orig, n) && SetReportsOf(t, vs[n].oid, orig, r);
    if vs[n].oid <= orig {
      CoveredIsNotAhead(vs[n].oid, orig);
    }
  }

  /** SET of a name under one view: its handler is called exactly when the view covers the name. */
  method SetUnder(tree: Tree, lua: Lua, view: Oid, orig: Oid, accepts: (int, Oid) -> bool)
    returns (r: Answer, calls: seq<Call>)
    requires tree.Valid() && Served(tree.table, lua)
    requires Fits32(view) && Fits32(orig) && |view| < ID_HALF && |orig| < ID_HALF
    ensures calls == if view <= orig then SetCall(tree.table, orig) else []
    ensures r.Stored? <==> calls != [] && accepts(calls[0].callback, calls[0].suffix)
    ensures !r.Stored? ==> SetReportsOf(tree.table, view, orig, r)
  {
    hide Tree.Valid, Served;
    var node, depth;
    node, depth, r, calls := tree.Search(view, orig, MibTree.Set(accepts), lua);
    if view <= orig {
      tree.NodeAt(orig[..depth]);
    }
  }

  /** SET over all write views of a community, after checking that one of them covers the request. */
  method Set(tree: Tree, lua: Lua, c: Community?, orig: Oid, accepts: (int, Oid) -> bool)
    returns (access: bool, r: Answer, calls: seq<Call>)
    requires tree.Valid() && Served(tree.table, lua) && Proper(orig)
    requires c != null ==> c.Ok()
    ensures access <==> c != null && Covers(c.rw, orig)
    ensures calls == if access && Reaches(c.rw, orig) then SetCall(tree.table, orig) else []
    ensures access && Orderly(c.rw) ==> calls == SetCall(tree.table, orig)
    ensures r.Stored? <==> calls != [] && accepts(calls[0].callback, calls[0].suffix)
    ensures access && !r.Stored? ==> SetReports(tree.table, c.rw, orig, r)
  {
    r, calls := NoSuchObject, [];
    if c == null {
      return false, r, calls;
    }
    access := c.ViewCover(Write, orig);
    if access {
      if Orderly(c.rw) {
        OrderlyReaches(c.rw, orig);
      }
      r, calls := SetThrough(tree, lua, c, orig, accepts);
    }
  }

  /** Where the loop stops decides whether the one view that covers the request was reached. */
  lemma ReachedBy(vs: seq<View>, orig: Oid, n: nat, m: nat, cmp: int)
    requires PrefixFree(vs) && n <= |vs| && m < |vs| && vs[m].oid <= orig && NotAhead(vs, orig, n)
    requires n < |vs| ==> cmp == CmpSpec(orig, vs[n].oid)
    ensures m <= n ==> Reaches(vs, orig)
    ensures n < m && cmp < 0 ==> !Reaches(vs, orig)
  {
    hide CmpSpec;
    if m <= n {
      assert NotAhead(vs, orig, m);
    }
    if n < m && cmp < 0 {
      forall k | 0 <= k < |vs| && vs[k].oid <= orig
        ensures !NotAhead(vs, orig, k)
      {
        OneCovers(vs, orig, k, m);
      }
    }
  }

  /** The loop over the write views. */
  method SetThrough(tree: Tree, lua: Lua, c: Community, orig: Oid, accepts: (int, Oid) -> bool)
    returns (r: Answer, calls: seq<Call>)
    requires tree.Valid() && Served(tree.table, lua) && Proper(orig) && c.Ok() && Covers(c.rw, orig)
    ensures calls == if Reaches(c.rw, orig) then SetCall(tree.table, orig) else []
    ensures r.Stored? <==> calls != [] && accepts(calls[0].callback, calls[0].suffix)
    ensures !r.Stored? ==> SetReports(tree.table, c.rw, orig, r)
  {
    hide Tree.Valid, Served, After, CmpIsSafe, CmpSpec, SetCall, Safe, Sorted, PrefixFree, IsVar, Within;
    hide EndsAt, SetReportsOf;
    r, calls := NoSuchObject, [];
    ghost var m :| 0 <= m < |c.rw| && c.rw[m].oid <= orig;
    var view: View? := null;
    ghost var n := 0;
    while true
      invariant n <= |c.rw| && view == if n == 0 then null else Visit(c.rw, n - 1)
      invariant n > 0 ==> view != null
      invariant NotAhead(c.rw, orig, n) && calls == if m < n then SetCall(tree.table, orig) else []
      invariant !r.Stored? && (calls != [] ==> !accepts(calls[0].callback, calls[0].suffix))
      invariant n > 0 ==> SetReportsOf(tree.table, c.rw[n - 1].oid, orig, r)
      decreases |c.rw| - n
    {
      view := c.NextView(Write, view);
      VisitsAll(c.rw, n);
      if view == null {
        ReachedBy(c.rw, orig, n, m, 0);
        EndsHere(c.rw, orig, n);
        return;
      }
      Proper32(view.oid);
      if view.oid <= orig {
        OneCovers(c.rw, orig, n, m);
      }
      var made;
      r, made := SetUnder(tree, lua, view.oid, orig, accepts);
      calls := calls + made;
      var cmp := OidCmp(orig, view.oid);
      if r.Stored? || cmp < 0 {
        ReachedBy(c.rw, orig, n, m, cmp);
        EndsHere(c.rw, orig, n);
        return;
      }
      n := n + 1;
    }
  }
}
