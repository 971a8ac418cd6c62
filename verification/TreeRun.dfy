/** Whole runs of registrations and removals on the tree in memory. */
module TreeRun {
  import opened Oids
  import opened MibTable
  import opened TableEdit
  import opened EditHistory
  import opened MibTree
  import opened TreeUpdate
  import opened TreeDelete

  /** No group has more than `n` children. */
  ghost predicate Narrow(t: Table, n: nat) {
    forall p {:trigger t[p]} :: p in t && t[p].Group? ==> |t[p].ids| <= n
  }

  lemma {:induction false} GraftNarrow(t: Table, oid: Oid, k: nat, cb: int, n: nat)
    requires k < |oid| && oid[..k] in t && t[oid[..k]].Group? && |t[oid[..k]].ids| <= n && Narrow(t, n + 1)
    ensures Narrow(Graft(t, oid, k, cb), n + 1)
    decreases |oid| - k
  {
    if k + 1 < |oid| {
      GraftNarrow(Descended(t, oid, k), oid, k + 1, cb, n);
    }
  }

  /** A call adds at most one child to any group. */
  lemma EditNarrow(t: Table, e: Edit, n: nat)
    requires WellFormed(t) && Fits32(e.oid) && Narrow(t, n)
    ensures Narrow(Edited(t, e), n + 1)
  {
    match e
    case Add(oid, cb) =>
      if |oid| <= OID_MAX_LEN && Free(t, oid) {
        assert oid[..0] == [] && oid[..|oid|] == oid;
        GraftNarrow(t, oid, Walk(t, oid, 0), cb, n);
      }
    case Remove(oid) =>
      var q := Target(t, oid);
      if q.Some? && q.value != [] {
        PrunedOk(t, q.value);
      }
  }

  /** Whenever the run adds an OID, the group that receives the new child has room for it. */
  ghost predicate Roomy(t: Table, es: seq<Edit>)
    requires WellFormed(t) && Fit(es)
    decreases |es|
  {
    es == [] ||
    (EditOk(t, es[0]); (es[0].Add? ==> RoomFor(t, es[0].oid)) && Roomy(Edited(t, es[0]), es[1..]))
  }

  ghost predicate RoomyRun(es: seq<Edit>)
    requires Fit(es)
  {
    EmptyOk();
    Roomy(EMPTY, es)
  }

  /**
   Any run of calls on a new tree: the tree stays valid throughout and the nodes are those of the run on tables. A
   callback is served under an OID exactly when a registration of it there was accepted and no later removal named a
   node at or above it, or one sub-id below it. The one condition is that no group outgrows its capacity.
   */
  method Replay(es: seq<Edit>) returns (tree: Tree)
    requires Fit(es) && RoomyRun(es)
    ensures WellFormed(EMPTY) && tree.Valid() && tree.table == Run(EMPTY, es)
    ensures forall p, cb :: (p in Bindings(tree.table) && Bindings(tree.table)[p] == cb) <==> BoundAfter(es, p, cb)
    ensures forall q :: (q in tree.table && tree.table[q].Group?) <==> GroupAfter(es, q)
  {
    hide Tree.Valid, PartsOf, Edited, Registered, Unregistered, Free, RoomFor, WellFormed, Bindings, Logged;
    hide BoundAfter, GroupAfter;
    EmptyOk();
    tree := new Tree();
    for i := 0 to |es|
      invariant tree.Valid() && fresh(tree) && (forall o :: o in tree.Parts() ==> fresh(o))
      invariant WellFormed(tree.table) && Roomy(tree.table, es[i..]) && Run(EMPTY, es) == Run(tree.table, es[i..])
    {
      var e := es[i];
      Step(tree.table, es, i);
      Apply(tree, e);
    }
    assert tree.table == Run(EMPTY, es);
    RunServes(es);
  }

  /** What the table of a run holds, by the calls alone. */
  lemma RunServes(es: seq<Edit>)
    requires Fit(es)
    ensures WellFormed(EMPTY)
    ensures var t := Run(EMPTY, es);
      && (forall p, cb :: (p in Bindings(t) && Bindings(t)[p] == cb) <==> BoundAfter(es, p, cb))
      && forall q :: (q in t && t[q].Group?) <==> GroupAfter(es, q)
  {
    hide WellFormed, BoundAfter, GroupAfter, Run;
    RunIs(es);
    var t := Run(EMPTY, es);
    forall p, cb
      ensures (p in Bindings(t) && Bindings(t)[p] == cb) <==> BoundAfter(es, p, cb)
    {
      assert BoundAt(t, p, cb) <==> BoundAfter(es, p, cb);
    }
    forall q
      ensures (q in t && t[q].Group?) <==> GroupAfter(es, q)
    {
      assert GroupAt(t, q) <==> GroupAfter(es, q);
    }
  }

  lemma Step(t: Table, es: seq<Edit>, i: nat)
    requires WellFormed(t) && Fit(es) && i < |es| && Roomy(t, es[i..])
    ensures es[i].Add? ==> RoomFor(t, es[i].oid)
    ensures WellFormed(Edited(t, es[i])) && Run(t, es[i..]) == Run(Edited(t, es[i]), es[i + 1..])
    ensures Roomy(Edited(t, es[i]), es[i + 1..])
  {
    EditOk(t, es[i]);
    assert es[i..][1..] == es[i + 1..];
  }

  /** A run of no more calls than a group can have children is roomy. */
  lemma {:induction false} ShortRunsAreRoomy(t: Table, es: seq<Edit>, n: nat)
    requires WellFormed(t) && Fit(es) && Narrow(t, n) && n + |es| <= GROUP_MAX
    ensures Roomy(t, es)
    decreases |es|
  {
    if es != [] {
      EditOk(t, es[0]);
      EditNarrow(t, es[0], n);
      ShortRunsAreRoomy(Edited(t, es[0]), es[1..], n + 1);
    }
  }

  /** One call. */
  method Apply(tree: Tree, e: Edit)
    requires tree.Valid() && (e.Add? ==> RoomFor(tree.table, e.oid)) && Fits32(e.oid)
    modifies tree, tree.Parts()
    ensures WellFormed(old(tree.table)) && tree.Valid() && tree.table == Edited(old(tree.table), e)
    ensures forall o :: o in tree.Parts() && o !in old(tree.Parts()) ==> fresh(o)
  {
    hide Tree.Valid, Registered, Unregistered, Free, RoomFor, Logged;
    tree.RootAt();
    tree.NodeAt([]);
    match e
    case Add(oid, cb) =>
      var ok := Register(tree, oid, cb);
    case Remove(oid) =>
      var freed, unrefs;
      ghost var paths;
      freed, unrefs, paths := Unregister(tree, oid);
  }
}
