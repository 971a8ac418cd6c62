/** Whole runs of granting and revoking access to communities. */
module ViewRun {
  import opened Oids
  import opened Views

  /** One call: let a name read, or read and write, a subtree, or take everything from it. */
  datatype Call = Allow(name: string, oid: Oid, access: Access) | Revoke(name: string)

  ghost predicate AllProper(es: seq<Call>) {
    forall i :: 0 <= i < |es| && es[i].Allow? ==> Proper(es[i].oid)
  }

  /** A name may reach an OID when a subtree that holds it was granted and nothing was revoked from the name since. */
  ghost predicate MayAccess(es: seq<Call>, name: string, a: Access, o: Oid) {
    exists i :: 0 <= i < |es| && Grants(es[i], name, a, o) && Revoke(name) !in es[i..]
  }

  ghost predicate Grants(e: Call, name: string, a: Access, o: Oid) {
    e.Allow? && e.name == name && (a.Read? || e.access.Write?) && e.oid <= o
  }

  lemma OneMore(es: seq<Call>, e: Call, name: string, a: Access, o: Oid)
    ensures MayAccess(es + [e], name, a, o) <==>
      if e == Revoke(name) then false else MayAccess(es, name, a, o) || Grants(e, name, a, o)
  {
    var fs := es + [e];
    if MayAccess(fs, name, a, o) {
      var i :| 0 <= i < |fs| && Grants(fs[i], name, a, o) && Revoke(name) !in fs[i..];
      assert fs[i..][|es| - i] == e;
      if i < |es| {
        assert fs[i..] == es[i..] + [e];
      }
    }
    if e != Revoke(name) {
      if MayAccess(es, name, a, o) {
        var i :| 0 <= i < |es| && Grants(es[i], name, a, o) && Revoke(name) !in es[i..];
        assert fs[i..] == es[i..] + [e] && fs[i] == es[i];
      }
      if Grants(e, name, a, o) {
        assert fs[|es|] == e && fs[|es|..] == [e];
      }
    }
  }

  /** The OIDs granted compare soundly with one another. */
  ghost predicate Compatible(es: seq<Call>) {
    forall i, j :: 0 <= i < |es| && 0 <= j < |es| && es[i].Allow? && es[j].Allow? ==> CmpIsSafe(es[i].oid, es[j].oid)
  }

  ghost predicate Granted(es: seq<Call>, v: View) {
    exists i :: 0 <= i < |es| && es[i].Allow? && es[i].oid == v.oid
  }

  lemma GrantedSafe(es: seq<Call>, vs: seq<View>)
    requires Compatible(es) && forall v :: v in vs ==> Granted(es, v)
    ensures Safe(vs)
  {
    forall i, j | 0 <= i < |vs| && 0 <= j < |vs|
      ensures CmpIsSafe(vs[i].oid, vs[j].oid)
    {
      assert vs[i] in vs && vs[j] in vs;
      var k :| 0 <= k < |es| && es[k].Allow? && es[k].oid == vs[i].oid;
      var l :| 0 <= l < |es| && es[l].Allow? && es[l].oid == vs[j].oid;
    }
  }

  lemma GrantedMore(es: seq<Call>, e: Call, v: View)
    requires Granted(es, v) || (e.Allow? && v.oid == e.oid)
    ensures Granted(es + [e], v)
  {
    var fs := es + [e];
    assert fs[|es|] == e && forall i :: 0 <= i < |es| ==> fs[i] == es[i];
  }

  /**
   After any run the lists cover exactly what was granted and not revoked, and they are sorted if the OIDs compare
   soundly.
   */
  method Replay(es: seq<Call>) returns (reg: Registry)
    requires AllProper(es)
    ensures reg.Valid()
    ensures forall name, a, o :: Covers(reg.ListOf(name, a), o) <==> MayAccess(es, name, a, o)
    ensures Compatible(es) ==> forall name, a :: Orderly(reg.ListOf(name, a))
  {
    hide Covers, MayAccess, IndexOf, Compatible, Granted, Safe, Orderly, Registry.Valid;
    reg := new Registry();
    NothingCovered();
    NothingGranted();
    for i := 0 to |es|
      invariant reg.Valid() && fresh(reg) && forall j :: 0 <= j < |reg.communities| ==> fresh(reg.communities[j])
      invariant forall name, a, o :: Covers(reg.ListOf(name, a), o) <==> MayAccess(es[..i], name, a, o)
      invariant forall v :: v in reg.views ==> Granted(es[..i], v)
    {
      var e := es[i];
      ghost var was := reg.communities;
      assert forall c :: c in was ==> fresh(c);
      Apply(reg, e, es[..i]);
      assert forall j :: 0 <= j < |reg.communities| ==> reg.communities[j] in reg.communities;
      assert es[..i + 1] == es[..i] + [e];
    }
    assert es[..|es|] == es;
    if Compatible(es) {
      GrantedSafe(es, reg.views);
      ListsOrderly(reg);
    }
  }

  lemma ListsOrderly(reg: Registry)
    requires reg.Valid() && Safe(reg.views)
    ensures forall name, a :: Orderly(reg.ListOf(name, a))
  {
    hide ListOk, Within, Safe;
    forall name, a
      ensures Orderly(reg.ListOf(name, a))
    {
      EmptyOrderly();
    }
  }

  lemma EmptyOrderly()
    ensures Orderly([])
  {
  }

  lemma NothingGranted()
    ensures forall name, a, o :: !MayAccess([], name, a, o)
  {
  }

  method Apply(reg: Registry, e: Call, ghost done: seq<Call>)
    requires reg.Valid() && (e.Allow? ==> Proper(e.oid))
    requires forall name, a, o :: Covers(reg.ListOf(name, a), o) <==> MayAccess(done, name, a, o)
    requires forall v :: v in reg.views ==> Granted(done, v)
    modifies reg, reg.communities
    ensures reg.Valid() && forall c :: c in reg.communities && c !in old(reg.communities) ==> fresh(c)
    ensures forall name, a, o :: Covers(reg.ListOf(name, a), o) <==> MayAccess(done + [e], name, a, o)
    ensures forall v :: v in reg.views ==> Granted(done + [e], v)
  {
    hide Covers, MayAccess, IndexOf, Registry.Valid, Granted;
    match e {
      case Allow(name, oid, access) => reg.Register(oid, name, access);
      case Revoke(name) => reg.Unregister(name, Read);
    }
    NothingCovered();
    forall v | v in reg.views
      ensures Granted(done + [e], v)
    {
      GrantedMore(done, e, v);
    }
    forall name, a, o
      ensures Covers(reg.ListOf(name, a), o) <==> MayAccess(done + [e], name, a, o)
    {
      OneMore(done, e, name, a, o);
      assert name != e.name ==> reg.ListOf(name, a) == old(reg.ListOf(name, a));
    }
  }
}
