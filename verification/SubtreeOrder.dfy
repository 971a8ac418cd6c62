/**
 The order in which a subtree is taken down. A traversal at position `c` has released the nodes
 `Before` it (none of them an ancestor), and, once done with `c`, those `Through` it.
 */
module SubtreeOrder {
  import opened Oids
  import opened MibTable

  ghost predicate Earlier(p: Oid, c: Oid) {
    Less(p, c) && !(p <= c)
  }

  ghost function Before(t: Table, base: Oid, c: Oid): set<Oid> {
    set p | p in t && base <= p && Earlier(p, c)
  }

  ghost function Through(t: Table, base: Oid, c: Oid): set<Oid> {
    set p | p in t && base <= p && (Earlier(p, c) || c <= p)
  }

  /** Children are released before their parents, and nothing twice. */
  ghost predicate PostOrder(s: seq<Oid>) {
    forall i, j :: 0 <= i < j < |s| ==> !(s[i] <= s[j])
  }

  /** The callbacks of the instances among the given nodes. */
  function Callbacks(t: Table, s: seq<Oid>): seq<int>
    requires forall i :: 0 <= i < |s| ==> s[i] in t
  {
    if s == [] then []
    else
      var last := s[|s| - 1];
      Callbacks(t, s[..|s| - 1]) + if t[last].Leaf? then [t[last].callback] else []
  }

  lemma NodeThroughGroup(t: Table, c: Oid, r: Oid)
    requires WellFormed(t) && c in t && r in t && c < r
    ensures t[c].Group? && r[|c|] in t[c].ids && Child(c, r[|c|]) <= r
  {
    assert r[..|c|] == c;
    PrefixIsNode(t, r, |c|);
  }

  /** Nothing lies between a group and the subtree of its child `x` but the subtrees of smaller children. */
  lemma UpToChild(t: Table, p: Oid, x: nat, r: Oid)
    requires WellFormed(t) && p in t && r in t
    ensures Earlier(r, Child(p, x)) <==> Earlier(r, p) || (p < r && r[|p|] < x)
    ensures p < r ==> (Child(p, x) <= r <==> r[|p|] == x)
  {
    var c := Child(p, x);
    PrefixIsLe(p, c);
    if p < r {
      NodeThroughGroup(t, p, r);
      var y := r[|p|];
      if y < x {
        SiblingLess(p, y, x, c);
        PastSubtree(Child(p, y), r, c);
      } else if y > x {
        SiblingLess(p, x, y, r);
      }
      PrefixIsLe(p, r);
      Trichotomy(r, c);
      Trichotomy(p, r);
      if Child(p, x) <= r {
        PrefixIsLe(c, r);
      }
    } else if r == p {
      Trichotomy(p, p);
    } else if Earlier(r, p) {
      LeTrans(r, p, c);
      assert r <= c ==> |r| > |p|;
      Trichotomy(r, p);
    } else if Earlier(r, c) {
      Trichotomy(r, p);
      if Less(p, r) {
        Between(p, r, c);
      }
    }
  }

  lemma LeafDone(t: Table, base: Oid, c: Oid)
    requires WellFormed(t) && c in t && t[c].Leaf? && base <= c
    ensures Before(t, base, c) + {c} == Through(t, base, c) && c !in Before(t, base, c)
  {
    forall r | r in t && c <= r
      ensures r == c
    {
      if c < r {
        NodeThroughGroup(t, c, r);
      }
    }
    assert forall r :: r in Through(t, base, c) <==> r in Before(t, base, c) + {c};
  }

  lemma FirstChild(t: Table, base: Oid, c: Oid)
    requires WellFormed(t) && c in t && t[c].Group? && t[c].ids != [] && base <= c
    ensures Before(t, base, Child(c, t[c].ids[0])) == Before(t, base, c)
  {
    assert NodeOk(t, c);
    forall r | r in t
      ensures Earlier(r, Child(c, t[c].ids[0])) <==> Earlier(r, c)
    {
      UpToChild(t, c, t[c].ids[0], r);
      if c < r {
        NodeThroughGroup(t, c, r);
      }
    }
  }

  lemma EmptyDone(t: Table, base: Oid, c: Oid)
    requires WellFormed(t) && c in t && t[c].Group? && t[c].ids == [] && base <= c
    ensures Through(t, base, Child(c, 0)) == Before(t, base, c)
  {
    forall r | r in t
      ensures Earlier(r, Child(c, 0)) || Child(c, 0) <= r <==> Earlier(r, c)
    {
      UpToChild(t, c, 0, r);
      if c < r {
        NodeThroughGroup(t, c, r);
      }
      assert Child(c, 0) <= r ==> c < r;
    }
  }

  lemma NoneBetween(ids: seq<nat>, n: nat, z: nat)
    requires IdsSorted(ids) && 0 < n < |ids| && z in ids
    ensures z < ids[n] <==> z <= ids[n - 1]
  {
  }

  lemma NextChild(t: Table, base: Oid, p: Oid, n: nat)
    requires WellFormed(t) && p in t && t[p].Group? && 0 < n < |t[p].ids| && base <= p
    ensures Through(t, base, Child(p, t[p].ids[n - 1])) == Before(t, base, Child(p, t[p].ids[n]))
  {
    assert NodeOk(t, p);
    var x, y := t[p].ids[n - 1], t[p].ids[n];
    forall r | r in t
      ensures Earlier(r, Child(p, x)) || Child(p, x) <= r <==> Earlier(r, Child(p, y))
    {
      hide Earlier;
      UpToChild(t, p, x, r);
      UpToChild(t, p, y, r);
      if p < r {
        NodeThroughGroup(t, p, r);
        NoneBetween(t[p].ids, n, r[|p|]);
      }
      assert Child(p, x) <= r ==> p < r;
    }
  }

  lemma LastChild(t: Table, base: Oid, p: Oid, x: nat)
    requires WellFormed(t) && p in t && t[p].Group? && base <= p
    requires forall i :: 0 <= i < |t[p].ids| ==> t[p].ids[i] <= x
    ensures Through(t, base, Child(p, x)) + {p} == Through(t, base, p) && p !in Through(t, base, Child(p, x))
  {
    var c := Child(p, x);
    forall r | r in t
      ensures Earlier(r, c) || c <= r || r == p <==> Earlier(r, p) || p <= r
    {
      hide Earlier;
      UpToChild(t, p, x, r);
      if p < r {
        NodeThroughGroup(t, p, r);
      }
      assert c <= r ==> p < r;
      assert p <= r ==> p < r || p == r;
    }
    assert forall r :: r in Through(t, base, p) <==> r in Through(t, base, c) + {p};
  }

  lemma AllDone(t: Table, base: Oid)
    ensures Through(t, base, base) == set p | p in t && base <= p
  {
    forall p | p in t && base <= p
      ensures !Earlier(p, base)
    {
      PrefixIsLe(base, p);
      Trichotomy(base, p);
    }
  }
}
