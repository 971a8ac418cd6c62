/**
 What a run of registrations and removals serves, read off the calls alone: the counterpart to replaying them on
 a table.
 */
module EditHistory {
  import opened Oids
  import opened MibTable
  import opened TableEdit

  /** Whether the registration `e` succeeds after the calls `done`: the place is free and below no instance. */
  ghost predicate Accepted(done: seq<Edit>, e: Edit)
    decreases |done|, 1
  {
    && e.Add? && 0 < |e.oid| <= OID_MAX_LEN && !GroupAfter(done, e.oid)
    && forall k, cb :: 0 <= k <= |e.oid| ==> !BoundAfter(done, e.oid[..k], cb)
  }

  /** A callback is served under `p`: registered there, and not reached by a removal since. */
  ghost predicate BoundAfter(es: seq<Edit>, p: Oid, cb: int)
    decreases |es|, 0
  {
    exists i :: 0 <= i < |es| && es[i] == Add(p, cb) && Accepted(es[..i], es[i]) && Unhit(es, i, p)
  }

  /** A group is there: it is the root, or a registration below it built it, and no removal at or above it since. */
  ghost predicate GroupAfter(es: seq<Edit>, q: Oid)
    decreases |es|, 0
  {
    q == [] || exists i :: 0 <= i < |es| && Accepted(es[..i], es[i]) && q < es[i].oid && Unpruned(es, i, q)
  }

  ghost predicate Unhit(es: seq<Edit>, i: int, p: Oid) {
    forall j :: i < j < |es| && 0 <= j && es[j].Remove? ==> !Hits(es[j].oid, p)
  }

  ghost predicate Unpruned(es: seq<Edit>, i: int, q: Oid) {
    forall j :: i < j < |es| && 0 <= j && es[j].Remove? ==> es[j].oid == [] || !(es[j].oid <= q)
  }

  lemma Snoc(es: seq<Edit>, e: Edit, i: nat)
    requires i <= |es|
    ensures (es + [e])[..i] == es[..i] && (es + [e])[i] == if i < |es| then es[i] else e
  {
  }

  lemma UnhitSnoc(es: seq<Edit>, e: Edit, i: nat, p: Oid)
    requires i <= |es|
    ensures Unhit(es + [e], i, p) <==> Unhit(es, i, p) && !(i < |es| && e.Remove? && Hits(e.oid, p))
  {
    hide Hits;
    assert (es + [e])[|es|] == e && forall j :: 0 <= j < |es| ==> (es + [e])[j] == es[j];
  }

  lemma UnprunedSnoc(es: seq<Edit>, e: Edit, i: nat, q: Oid)
    requires i <= |es|
    ensures Unpruned(es + [e], i, q) <==>
      Unpruned(es, i, q) && !(i < |es| && e.Remove? && e.oid != [] && e.oid <= q)
  {
    assert (es + [e])[|es|] == e && forall j :: 0 <= j < |es| ==> (es + [e])[j] == es[j];
  }

  /** How one more call changes what is served. */
  lemma BoundSnoc(es: seq<Edit>, e: Edit, p: Oid, cb: int)
    ensures BoundAfter(es + [e], p, cb) <==>
      (BoundAfter(es, p, cb) && !(e.Remove? && Hits(e.oid, p))) || (e == Add(p, cb) && Accepted(es, e))
  {
    hide Accepted, Hits, Unhit;
    var more, n := es + [e], |es|;
    assert es[..n] == es;
    if BoundAfter(more, p, cb) {
      var i :| 0 <= i < |more| && more[i] == Add(p, cb) && Accepted(more[..i], more[i]) && Unhit(more, i, p);
      Snoc(es, e, i);
      UnhitSnoc(es, e, i, p);
    }
    if BoundAfter(es, p, cb) && !(e.Remove? && Hits(e.oid, p)) {
      var i :| 0 <= i < n && es[i] == Add(p, cb) && Accepted(es[..i], es[i]) && Unhit(es, i, p);
      Snoc(es, e, i);
      UnhitSnoc(es, e, i, p);
      assert Accepted(more[..i], more[i]);
    }
    if e == Add(p, cb) && Accepted(es, e) {
      Snoc(es, e, n);
      UnhitSnoc(es, e, n, p);
      NothingLater(es, p);
      assert Accepted(more[..n], more[n]);
    }
  }

  lemma NothingLater(es: seq<Edit>, p: Oid)
    ensures Unhit(es, |es|, p) && Unpruned(es, |es|, p)
  {
  }

  /** How one more call changes the groups. */
  lemma GroupSnoc(es: seq<Edit>, e: Edit, q: Oid)
    ensures GroupAfter(es + [e], q) <==>
      q == [] || (GroupAfter(es, q) && !(e.Remove? && e.oid != [] && e.oid <= q)) || (Accepted(es, e) && q < e.oid)
  {
    hide Accepted, Unpruned;
    var more, n := es + [e], |es|;
    assert es[..n] == es;
    if q != [] {
      if GroupAfter(more, q) {
        var i :| 0 <= i < |more| && Accepted(more[..i], more[i]) && q < more[i].oid && Unpruned(more, i, q);
        Snoc(es, e, i);
        UnprunedSnoc(es, e, i, q);
      }
      if GroupAfter(es, q) && !(e.Remove? && e.oid != [] && e.oid <= q) {
        var i :| 0 <= i < n && Accepted(es[..i], es[i]) && q < es[i].oid && Unpruned(es, i, q);
        Snoc(es, e, i);
        UnprunedSnoc(es, e, i, q);
        assert Accepted(more[..i], more[i]);
      }
      if Accepted(es, e) && q < e.oid {
        Snoc(es, e, n);
        UnprunedSnoc(es, e, n, q);
        NothingLater(es, q);
        assert Accepted(more[..n], more[n]);
      }
    }
  }

  lemma {:induction false} RunSnoc(t: Table, es: seq<Edit>, e: Edit)
    requires WellFormed(t) && Fit(es) && Fits32(e.oid)
    ensures Fit(es + [e]) && Run(t, es + [e]) == Edited(Run(t, es), e)
    decreases |es|
  {
    hide WellFormed, Edited, Fits32;
    EditOk(t, (es + [e])[0]);
    if es == [] {
      assert (es + [e])[1..] == [];
    } else {
      RunSnoc(Edited(t, es[0]), es[1..], e);
      assert (es + [e])[1..] == es[1..] + [e];
    }
  }

  const EMPTY: Table := map[[] := Group([])]

  lemma EmptyOk()
    ensures WellFormed(EMPTY)
  {
    assert NodeOk(EMPTY, []) && LinkOk(EMPTY, []);
  }

  /** The table holds what the calls so far say. */
  ghost predicate Agrees(t: Table, es: seq<Edit>) {
    && (forall q :: GroupAt(t, q) <==> GroupAfter(es, q))
    && forall p, cb :: BoundAt(t, p, cb) <==> BoundAfter(es, p, cb)
  }

  /** A registration is accepted exactly when its place is free. */
  lemma AcceptedIsFree(t: Table, es: seq<Edit>, e: Edit)
    requires Agrees(t, es)
    ensures Accepted(es, e) <==> e.Add? && |e.oid| <= OID_MAX_LEN && Free(t, e.oid)
  {
    hide GroupAfter, BoundAfter;
    var o := e.oid;
    assert o[..|o|] == o;
    forall k | 0 <= k <= |o| && o[..k] in t
      ensures GroupAt(t, o[..k]) || exists cb :: BoundAt(t, o[..k], cb)
    {
      if t[o[..k]].Leaf? {
        assert BoundAt(t, o[..k], t[o[..k]].callback);
      }
    }
  }

  lemma AgreesOn(t: Table, es: seq<Edit>, e: Edit)
    requires WellFormed(t) && Fits32(e.oid) && Agrees(t, es)
    ensures Agrees(Edited(t, e), es + [e])
  {
    hide GroupAfter, BoundAfter, Accepted, Edited, WellFormed, GroupAt, BoundAt, Free, Fits32, Hits;
    EditOk(t, e);
    AcceptedIsFree(t, es, e);
    forall q
      ensures GroupAt(Edited(t, e), q) <==> GroupAfter(es + [e], q)
    {
      GroupSnoc(es, e, q);
      RootIsGroup(es);
    }
    forall p, cb
      ensures BoundAt(Edited(t, e), p, cb) <==> BoundAfter(es + [e], p, cb)
    {
      BoundSnoc(es, e, p, cb);
    }
  }

  lemma RootIsGroup(es: seq<Edit>)
    ensures GroupAfter(es, [])
  {
  }

  /** Replaying any run of calls on an empty table gives exactly the groups and callbacks the calls account for. */
  lemma {:induction false} RunIs(es: seq<Edit>)
    requires Fit(es)
    ensures WellFormed(EMPTY) && Agrees(Run(EMPTY, es), es)
    decreases |es|
  {
    EmptyOk();
    if es != [] {
      var n := |es| - 1;
      assert es == es[..n] + [es[n]];
      RunIs(es[..n]);
      RunSnoc(EMPTY, es[..n], es[n]);
      AgreesOn(Run(EMPTY, es[..n]), es[..n], es[n]);
    }
  }
}
