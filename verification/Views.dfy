/**
 Views and the communities they are bound to. Each community keeps a read list and a write list
 of views, prefix-free and, as far as the agent's comparison goes, sorted by OID; the users' registry
 works the same way.
 */
module Views {
  import opened Oids

  /** A view: the subtree below one OID. There is one object per OID. */
  class View {
    const oid: Oid

    constructor (oid: Oid)
      ensures this.oid == oid
    {
      this.oid := oid;
    }
  }

  ghost predicate Sorted(vs: seq<View>) {
    forall i, j :: 0 <= i < j < |vs| ==> Less(vs[i].oid, vs[j].oid)
  }

  ghost predicate PrefixFree(vs: seq<View>) {
    forall i, j :: 0 <= i < |vs| && 0 <= j < |vs| && i != j ==> !(vs[i].oid <= vs[j].oid)
  }

  /** An OID of 32-bit sub-ids, no longer than the agent's buffers. */
  ghost predicate Proper(o: Oid) {
    Fits32(o) && |o| <= VALUE_MAX_LEN
  }

  ghost predicate ListOk(vs: seq<View>) {
    PrefixFree(vs) && forall i :: 0 <= i < |vs| ==> Proper(vs[i].oid)
  }

  /** Any two OIDs of the list are compared without wrapping around. */
  ghost predicate Safe(vs: seq<View>) {
    forall i, j :: 0 <= i < |vs| && 0 <= j < |vs| ==> CmpIsSafe(vs[i].oid, vs[j].oid)
  }

  ghost predicate Orderly(vs: seq<View>) {
    Sorted(vs) && Safe(vs)
  }

  /** Some view of the list is a prefix of `o`. */
  ghost predicate Covers(vs: seq<View>, o: Oid) {
    exists i :: 0 <= i < |vs| && vs[i].oid <= o
  }

  lemma Proper32(o: Oid)
    requires Proper(o)
    ensures Fits32(o) && |o| < ID_HALF
  {
  }

  /** In a good list the objects differ, and at most one of them covers a given OID. */
  lemma OneCovers(vs: seq<View>, o: Oid, i: nat, j: nat)
    requires PrefixFree(vs) && i < |vs| && j < |vs| && vs[i].oid <= o && vs[j].oid <= o
    ensures i == j
  {
  }

  /** The views that `oid` does not cover, in order. */
  function Keep(vs: seq<View>, oid: Oid): seq<View> {
    if vs == [] then []
    else
      var last := vs[|vs| - 1];
      Keep(vs[..|vs| - 1], oid) + if oid <= last.oid then [] else [last]
  }

  lemma {:induction false} KeptFrom(vs: seq<View>, oid: Oid, i: nat) returns (j: nat)
    requires i < |Keep(vs, oid)|
    ensures j < |vs| && vs[j] == Keep(vs, oid)[i] && !(oid <= vs[j].oid)
  {
    var n := |vs| - 1;
    if i < |Keep(vs[..n], oid)| {
      j := KeptFrom(vs[..n], oid, i);
    } else {
      j := n;
    }
  }

  lemma {:induction false} KeptTo(vs: seq<View>, oid: Oid, j: nat) returns (i: nat)
    requires j < |vs| && !(oid <= vs[j].oid)
    ensures i < |Keep(vs, oid)| && Keep(vs, oid)[i] == vs[j]
  {
    var n := |vs| - 1;
    if j < n {
      i := KeptTo(vs[..n], oid, j);
    } else {
      i := |Keep(vs[..n], oid)|;
    }
  }

  lemma {:induction false} KeepAll(vs: seq<View>, oid: Oid)
    requires forall i :: 0 <= i < |vs| ==> !(oid <= vs[i].oid)
    ensures Keep(vs, oid) == vs
  {
    if vs != [] {
      var n := |vs| - 1;
      KeepAll(vs[..n], oid);
      assert vs == vs[..n] + [vs[n]];
    }
  }

  /** The views kept stand in the order they had. */
  lemma {:induction false} KeptInOrder(vs: seq<View>, oid: Oid, i: nat, j: nat) returns (k: nat, l: nat)
    requires i < j < |Keep(vs, oid)|
    ensures k < l < |vs| && vs[k] == Keep(vs, oid)[i] && vs[l] == Keep(vs, oid)[j]
  {
    var n := |vs| - 1;
    if j < |Keep(vs[..n], oid)| {
      k, l := KeptInOrder(vs[..n], oid, i, j);
    } else {
      k := KeptFrom(vs[..n], oid, i);
      l := n;
    }
  }

  lemma KeepOk(vs: seq<View>, oid: Oid)
    requires PrefixFree(vs)
    ensures PrefixFree(Keep(vs, oid)) && (Sorted(vs) ==> Sorted(Keep(vs, oid)))
  {
    var r := Keep(vs, oid);
    hide Keep, Less;
    forall i, j | 0 <= i < j < |r|
      ensures !(r[i].oid <= r[j].oid) && !(r[j].oid <= r[i].oid) && (Sorted(vs) ==> Less(r[i].oid, r[j].oid))
    {
      var k, l := KeptInOrder(vs, oid, i, j);
    }
  }

  /** Drop the views `oid` covers, stopping with true at a view that covers `oid`. */
  method Filter(vs: seq<View>, oid: Oid) returns (filtered: bool, r: seq<View>)
    requires ListOk(vs) && Proper(oid)
    ensures filtered <==> Covers(vs, oid)
    ensures filtered ==> r == vs
    ensures !filtered ==> r == Keep(vs, oid)
  {
    hide Keep, Sorted;
    r := vs;
    var i, n := 0, 0;
    Proper32(oid);
    KeepNone(oid);
    while n < |vs|
      invariant 0 <= n <= |vs| && i <= |r| && r[..i] == Keep(vs[..n], oid) && r[i..] == vs[n..]
      invariant forall j :: 0 <= j < n ==> !(vs[j].oid <= oid)
      decreases |vs| - n
    {
      assert r[i] == r[i..][0] == vs[n];
      KeepStep(vs, n, oid);
      Proper32(vs[n].oid);
      var cover := OidCover(r[i].oid, oid);
      if cover > 0 {
        NoneCoveredBefore(vs, n, oid);
        KeepAll(vs[..n], oid);
        assert r == r[..i] + r[i..];
        return true, r;
      }
      if cover < 0 {
        ghost var was := r;
        r := r[..i] + r[i + 1..];
        assert r[..i] == was[..i];
        assert r[i..] == was[i..][1..] == vs[n + 1..];
      } else {
        i := i + 1;
        assert r[..i] == r[..i - 1] + [vs[n]];
        assert r[i..] == r[i - 1..][1..] == vs[n + 1..];
      }
      n := n + 1;
    }
    assert vs[..n] == vs && r == r[..i];
    return false, r;
  }

  lemma KeepNone(oid: Oid)
    ensures Keep([], oid) == []
  {
  }

  lemma KeepStep(vs: seq<View>, n: nat, oid: Oid)
    requires n < |vs|
    ensures Keep(vs[..n + 1], oid) == Keep(vs[..n], oid) + if oid <= vs[n].oid then [] else [vs[n]]
  {
    assert vs[..n + 1][..n] == vs[..n];
  }

  /** Once a view covers `oid`, no view of the list lies below `oid`, so nothing was dropped before. */
  lemma NoneCoveredBefore(vs: seq<View>, n: nat, oid: Oid)
    requires PrefixFree(vs) && n < |vs| && vs[n].oid <= oid
    ensures forall j :: 0 <= j < |vs[..n]| ==> !(oid <= vs[..n][j].oid)
  {
    assert forall j :: 0 <= j < n && oid <= vs[j].oid ==> vs[n].oid <= vs[j].oid;
  }

  /** The insertion loop gets as far as position `j`: no view before it compares as greater. */
  ghost predicate Reached(vs: seq<View>, oid: Oid, j: nat) {
    forall k :: 0 <= k < j && k < |vs| ==> CmpSpec(vs[k].oid, oid) <= 0
  }

  /**
   Insert a view before the first one that compares as greater. A sorted list stays sorted if and only if every
   comparison the loop makes is sound.
   */
  method AddSorted(vs: seq<View>, v: View) returns (r: seq<View>, i: nat)
    requires ListOk(vs) && Proper(v.oid)
    requires forall j :: 0 <= j < |vs| ==> !(vs[j].oid <= v.oid) && !(v.oid <= vs[j].oid)
    ensures i <= |vs| && r == vs[..i] + [v] + vs[i..] && ListOk(r)
    ensures Sorted(vs) ==>
      (Sorted(r) <==> forall j :: 0 <= j < |vs| && Reached(vs, v.oid, j) ==> CmpIsSafe(vs[j].oid, v.oid))
  {
    hide Sorted, PrefixFree, CmpSpec, CmpIsSafe;
    i := 0;
    Proper32(v.oid);
    while i < |vs|
      invariant 0 <= i <= |vs| && Reached(vs, v.oid, i)
    {
      Proper32(vs[i].oid);
      var cmp := OidCmp(vs[i].oid, v.oid);
      if cmp > 0 {
        break;
      }
      i := i + 1;
    }
    r := vs[..i] + [v] + vs[i..];
    Inserted(vs, v, i);
    if Sorted(vs) {
      SortedInserted(vs, v, i);
    }
  }

  lemma Inserted(vs: seq<View>, v: View, i: nat)
    requires ListOk(vs) && Proper(v.oid) && i <= |vs|
    requires forall j :: 0 <= j < |vs| ==> !(vs[j].oid <= v.oid) && !(v.oid <= vs[j].oid)
    ensures ListOk(vs[..i] + [v] + vs[i..])
  {
    hide Proper;
    var r := vs[..i] + [v] + vs[i..];
    assert forall j :: 0 <= j < |r| ==> r[j] == if j < i then vs[j] else if j == i then v else vs[j - 1];
    forall j, k | 0 <= j < |r| && 0 <= k < |r| && j != k
      ensures !(r[j].oid <= r[k].oid)
    {
      var v, w := r[j], r[k];
      assert j == i ==> w == vs[if k < i then k else k - 1];
      assert k == i ==> v == vs[if j < i then j else j - 1];
    }
  }

  /** Where the loop stops is the right place if and only if it was not misled on the way there or at the end. */
  lemma SortedInserted(vs: seq<View>, v: View, i: nat)
    requires ListOk(vs) && Proper(v.oid) && Sorted(vs) && i <= |vs|
    requires forall j :: 0 <= j < |vs| ==> !(vs[j].oid <= v.oid) && !(v.oid <= vs[j].oid)
    requires Reached(vs, v.oid, i) && (i < |vs| ==> CmpSpec(vs[i].oid, v.oid) > 0)
    ensures Sorted(vs[..i] + [v] + vs[i..]) <==>
      forall j :: 0 <= j < |vs| && Reached(vs, v.oid, j) ==> CmpIsSafe(vs[j].oid, v.oid)
  {
    hide CmpSpec, CmpIsSafe, Less, PrefixFree, Sorted;
    forall j | 0 <= j < |vs|
      ensures Reached(vs, v.oid, j) <==> j <= i
      ensures j < i ==> (CmpIsSafe(vs[j].oid, v.oid) <==> Less(vs[j].oid, v.oid))
      ensures j == i ==> (CmpIsSafe(vs[j].oid, v.oid) <==> Less(v.oid, vs[j].oid))
    {
      CmpOfDistinct(vs[j].oid, v.oid);
    }
    InPlace(vs, v, i);
    hide Reached;
  }

  /** A list with one more view at `i` is sorted if and only if the view fits between its neighbours. */
  lemma InPlace(vs: seq<View>, v: View, i: nat)
    requires Sorted(vs) && i <= |vs|
    ensures Sorted(vs[..i] + [v] + vs[i..]) <==>
      (forall j :: 0 <= j < i ==> Less(vs[j].oid, v.oid)) && (i < |vs| ==> Less(v.oid, vs[i].oid))
  {
    var r := vs[..i] + [v] + vs[i..];
    assert forall j :: 0 <= j < |r| ==> r[j] == if j < i then vs[j] else if j == i then v else vs[j - 1];
    hide Less;
    if i < |vs| && Less(v.oid, vs[i].oid) {
      forall j | i < j < |vs|
        ensures Less(v.oid, vs[j].oid)
      {
        LessTrans(v.oid, vs[i].oid, vs[j].oid);
      }
    }
    if Sorted(r) {
      forall j | 0 <= j < i
        ensures Less(vs[j].oid, v.oid)
      {
        assert Less(r[j].oid, r[i].oid);
      }
      assert i < |vs| ==> Less(r[i].oid, r[i + 1].oid);
    }
  }

  lemma CmpOfDistinct(a: Oid, b: Oid)
    requires Proper(a) && Proper(b) && a != b
    ensures CmpSpec(a, b) != 0
    ensures CmpIsSafe(a, b) <==> (CmpSpec(a, b) < 0 <==> Less(a, b))
    ensures Less(a, b) <==> !Less(b, a)
  {
    CmpMeaning(a, b);
    Trichotomy(a, b);
  }

  /** Adding 1.0 to a list that holds 1.2415919104 puts it behind. */
  lemma Misplaced(vs: seq<View>, v: View)
    requires |vs| == 1 && vs[0].oid == [1, 0x9000_0000] && v.oid == [1, 0]
    ensures Reached(vs, v.oid, 1) && Less(v.oid, vs[0].oid) && !CmpIsSafe(vs[0].oid, v.oid)
  {
    assert Lcp([1, 0x9000_0000], [1, 0]) == 1;
    LessAt([1, 0], [1, 0x9000_0000], 1);
  }

  lemma CoversInserted(vs: seq<View>, v: View, i: nat, o: Oid)
    requires i <= |vs|
    ensures Covers(vs[..i] + [v] + vs[i..], o) <==> Covers(vs, o) || v.oid <= o
  {
    var r := vs[..i] + [v] + vs[i..];
    assert r[i] == v;
    forall j | 0 <= j < |vs|
      ensures vs[j] == r[if j < i then j else j + 1]
    {
    }
    forall j | 0 <= j < |r| && j != i
      ensures r[j] == vs[if j < i then j else j - 1]
    {
    }
  }

  /** Dropping the views below `oid` loses nothing that `oid` does not cover itself. */
  lemma CoversKept(vs: seq<View>, oid: Oid, o: Oid)
    ensures Covers(Keep(vs, oid), o) ==> Covers(vs, o)
    ensures Covers(vs, o) ==> Covers(Keep(vs, oid), o) || oid <= o
  {
    if Covers(Keep(vs, oid), o) {
      var i :| 0 <= i < |Keep(vs, oid)| && Keep(vs, oid)[i].oid <= o;
      var j := KeptFrom(vs, oid, i);
    }
    if Covers(vs, o) && !(oid <= o) {
      var j :| 0 <= j < |vs| && vs[j].oid <= o;
      assert oid <= vs[j].oid ==> oid <= o;
      var i := KeptTo(vs, oid, j);
    }
  }

  datatype Access = Read | Write

  class Community {
    const name: string
    var ro: seq<View>
    var rw: seq<View>

    constructor (name: string)
      ensures this.name == name && ro == [] && rw == []
    {
      this.name := name;
      ro, rw := [], [];
    }

    function ViewsFor(a: Access): seq<View>
      reads this
    {
      if a.Read? then ro else rw
    }

    /** Both lists are good, every write view lies within the read views. */
    ghost predicate Ok()
      reads this
    {
      ListOk(ro) && ListOk(rw) && Within(rw, ro)
    }

    /** Some view of the list covers the OID. */
    method ViewCover(a: Access, oid: Oid) returns (r: bool)
      requires Ok() && Fits32(oid) && |oid| < ID_HALF
      ensures r <==> Covers(if a.Read? then ro else rw, oid)
    {
      var views := ViewsFor(a);
      for i := 0 to |views|
        invariant forall j :: 0 <= j < i ==> !(views[j].oid <= oid)
      {
        Proper32(views[i].oid);
        var cover := OidCover(views[i].oid, oid);
        if cover > 0 {
          return true;
        }
      }
      return false;
    }

    /** The view after `v`; the first one when there is none yet, none after the last. */
    method NextView(a: Access, v: View?) returns (r: View?)
      ensures r == After(if a.Read? then ro else rw, v)
    {
      var views := ViewsFor(a);
      for i := 0 to |views|
        invariant v == null ==> i == 0
        invariant v != null ==> After(views, v) == AfterFrom(views, v, i)
      {
        if v == null {
          return views[0];
        } else if v == views[i] {
          if i + 1 != |views| {
            return views[i + 1];
          }
        }
      }
      return null;
    }
  }

  /** The successor of a view in a list, found by its first occurrence that is not the last entry. */
  function After(vs: seq<View>, v: View?): View? {
    if v == null then (if vs == [] then null else vs[0]) else AfterFrom(vs, v, 0)
  }

  function AfterFrom(vs: seq<View>, v: View, i: nat): View?
    requires i <= |vs|
    decreases |vs| - i
  {
    if i == |vs| then null
    else if vs[i] == v && i + 1 < |vs| then vs[i + 1]
    else AfterFrom(vs, v, i + 1)
  }

  /** Asking for the next view over and over, starting from nothing. */
  function Visit(vs: seq<View>, k: nat): View? {
    if k == 0 then After(vs, null)
    else
      var v := Visit(vs, k - 1);
      if v == null then null else After(vs, v)
  }

  lemma {:induction false} AfterAt(vs: seq<View>, k: nat, i: nat)
    requires PrefixFree(vs) && i <= k < |vs|
    ensures AfterFrom(vs, vs[k], i) == if k + 1 < |vs| then vs[k + 1] else null
    decreases k - i
  {
    if i < k {
      assert !(vs[i].oid <= vs[k].oid);
      AfterAt(vs, k, i + 1);
    }
  }

  /** The traversal visits every view of a list once, in order, and then ends. */
  lemma {:induction false} VisitsAll(vs: seq<View>, k: nat)
    requires PrefixFree(vs)
    ensures Visit(vs, k) == if k < |vs| then vs[k] else null
  {
    if k > 0 {
      VisitsAll(vs, k - 1);
      if k - 1 < |vs| {
        AfterAt(vs, k - 1, 0);
      }
    }
  }

  /** Every view of the first list lies below a view of the second. */
  ghost predicate Within(ws: seq<View>, rs: seq<View>) {
    forall i :: 0 <= i < |ws| ==> Covers(rs, ws[i].oid)
  }

  lemma WithinCovers(ws: seq<View>, rs: seq<View>, o: Oid)
    requires Within(ws, rs) && Covers(ws, o)
    ensures Covers(rs, o)
  {
    var i :| 0 <= i < |ws| && ws[i].oid <= o;
    var j :| 0 <= j < |rs| && rs[j].oid <= ws[i].oid;
    assert rs[j].oid <= o;
  }

  class Registry {
    var views: seq<View>
    var communities: seq<Community>

    /**
     One view per OID, one community per name, and each community able to read something. As long as the OIDs of all
     views ever created compare soundly, every list is sorted.
     */
    ghost predicate Valid()
      reads this, communities
    {
      && (forall i, j :: 0 <= i < j < |views| ==> views[i].oid != views[j].oid)
      && (forall i :: 0 <= i < |views| ==> Proper(views[i].oid))
      && (forall i, j :: 0 <= i < j < |communities| ==>
      communities[i] != communities[j] && communities[i].name != communities[j].name)
      && (forall i :: 0 <= i < |communities| ==> Sound(communities[i]))
    }

    ghost predicate Sound(c: Community)
      reads this, c
    {
      && c.Ok() && c.ro != [] && Known(c.ro) && Known(c.rw)
      && (Safe(views) ==> Orderly(c.ro) && Orderly(c.rw))
    }

    ghost predicate Known(vs: seq<View>)
      reads this
    {
      forall i :: 0 <= i < |vs| ==> vs[i] in views
    }

    constructor ()
      ensures Valid() && communities == [] && views == []
    {
      views, communities := [], [];
    }

    /** The registered view with this OID, or a new one at the head of the list. */
    method ViewCreate(oid: Oid) returns (v: View)
      requires Proper(oid) && (forall i :: 0 <= i < |views| ==> Proper(views[i].oid))
      requires forall i, j :: 0 <= i < j < |views| ==> views[i].oid != views[j].oid
      modifies this`views
      ensures v.oid == oid && v in views
      ensures views == old(views) || views == [v] + old(views)
      ensures forall i, j :: 0 <= i < j < |views| ==> views[i].oid != views[j].oid
    {
      Proper32(oid);
      for i := 0 to |views|
        invariant views == old(views)
        invariant forall j :: 0 <= j < i ==> views[j].oid != oid
      {
        Proper32(views[i].oid);
        var cmp := OidCmp(views[i].oid, oid);
        CmpMeaning(views[i].oid, oid);
        if cmp == 0 {
          return views[i];
        }
      }
      v := new View(oid);
      views := [v] + views;
    }

    /** Bind the view for `oid` to a list, unless the list covers it already. */
    method Bind(vs: seq<View>, oid: Oid) returns (r: seq<View>)
      requires ListOk(vs) && Proper(oid) && Known(vs) && (forall i :: 0 <= i < |views| ==> Proper(views[i].oid))
      requires forall i, j :: 0 <= i < j < |views| ==> views[i].oid != views[j].oid
      modifies this`views
      ensures ListOk(r) && r != [] && Known(r)
      ensures forall o :: Covers(r, o) <==> Covers(vs, o) || oid <= o
      ensures Safe(views) && Sorted(vs) ==> Orderly(r)
      ensures views == old(views) || (exists v: View :: v.oid == oid && views == [v] + old(views))
      ensures forall i, j :: 0 <= i < j < |views| ==> views[i].oid != views[j].oid
    {
      hide Fits32, CmpIsSafe, CmpSpec, Less, Reached;
      var filtered;
      filtered, r := Filter(vs, oid);
      if filtered {
        forall o | oid <= o
          ensures Covers(vs, o)
        {
          var i :| 0 <= i < |vs| && vs[i].oid <= oid;
          assert vs[i].oid <= o;
        }
        SafeSublist(views, r);
        return;
      }
      KeepOk(vs, oid);
      ghost var kept := r;
      forall i | 0 <= i < |r|
        ensures !(r[i].oid <= oid) && !(oid <= r[i].oid) && r[i] in views
      {
        var j := KeptFrom(vs, oid, i);
      }
      hide PrefixFree, Sorted, Keep;
      var v := ViewCreate(oid);
      ghost var i;
      r, i := AddSorted(r, v);
      forall o
        ensures Covers(r, o) <==> Covers(vs, o) || oid <= o
      {
        CoversInserted(kept, v, i, o);
        CoversKept(vs, oid, o);
      }
      SafeSublist(views, r);
      SafePairs(views, kept, v);
    }

    /** The views a name may read or write; none for a name not registered. */
    ghost function ListOf(name: string, a: Access): seq<View>
      reads this, communities
    {
      var i := IndexOf(communities, name);
      if i < |communities| then communities[i].ViewsFor(a) else []
    }

    method Search(name: string) returns (c: Community?)
      ensures c == if IndexOf(communities, name) < |communities| then communities[IndexOf(communities, name)] else null
    {
      for i := 0 to |communities|
        invariant forall j :: 0 <= j < i ==> communities[j].name != name
      {
        if communities[i].name == name {
          IndexIs(communities, name, i);
          return communities[i];
        }
      }
      IndexIs(communities, name, |communities|);
      return null;
    }

    /** The community with this name, or a new one at the head of the list. */
    method CommunityCreate(name: string) returns (c: Community)
      modifies this`communities
      ensures c.name == name && IndexOf(communities, name) < |communities|
        && c == communities[IndexOf(communities, name)]
      ensures IndexOf(old(communities), name) < |old(communities)| ==> communities == old(communities)
      ensures IndexOf(old(communities), name) == |old(communities)| ==>
        communities == [c] + old(communities) && fresh(c) && c.ro == [] && c.rw == []
    {
      var found := Search(name);
      if found != null {
        return found;
      }
      c := new Community(name);
      communities := [c] + communities;
      IndexIs(communities, name, 0);
    }

    /** Bind the view for `oid` to the community's write list, if wanted, and to its read list. */
    method Grant(c: Community, oid: Oid, a: Access)
      requires Proper(oid) && c.Ok() && Known(c.ro) && Known(c.rw)
        && (forall i :: 0 <= i < |views| ==> Proper(views[i].oid))
      requires forall i, j :: 0 <= i < j < |views| ==> views[i].oid != views[j].oid
      modifies this`views, c
      ensures c.Ok() && c.ro != [] && Known(c.ro) && Known(c.rw)
      ensures Safe(views) && Sorted(old(c.ro)) && Sorted(old(c.rw)) ==> Orderly(c.ro) && Orderly(c.rw)
      ensures forall o :: Covers(c.ro, o) <==> Covers(old(c.ro), o) || oid <= o
      ensures a.Write? ==> forall o :: Covers(c.rw, o) <==> Covers(old(c.rw), o) || oid <= o
      ensures a.Read? ==> c.rw == old(c.rw)
      ensures (forall i :: 0 <= i < |views| ==> Proper(views[i].oid))
        && (forall i, j :: 0 <= i < j < |views| ==> views[i].oid != views[j].oid)
      ensures forall v :: v in old(views) ==> v in views
      ensures forall v :: v in views ==> v in old(views) || v.oid == oid
    {
      hide ListOk, Covers, Safe, Sorted;
      if a.Write? {
        var ws := Bind(c.rw, oid);
        c.rw := ws;
      }
      ghost var before := views;
      var rs := Bind(c.ro, oid);
      SafeSublist(views, before);
      c.ro := rs;
      StillWithin(old(c.ro), old(c.rw), c.ro, c.rw, oid);
      SafeSublist(views, c.rw);
    }

    /** Let a community read, or read and write, the subtree below `oid`. */
    method Register(oid: Oid, name: string, a: Access)
      requires Valid() && Proper(oid)
      modifies this, communities
      ensures Valid() && forall c :: c in communities && c !in old(communities) ==> fresh(c)
      ensures forall v :: v in views ==> v in old(views) || v.oid == oid
      ensures forall o :: Covers(ListOf(name, Read), o) <==> old(Covers(ListOf(name, Read), o)) || oid <= o
      ensures forall o :: Covers(ListOf(name, Write), o) <==>
        old(Covers(ListOf(name, Write), o)) || (a.Write? && oid <= o)
      ensures forall n, b :: n != name ==> ListOf(n, b) == old(ListOf(n, b))
    {
      hide ListOk, Covers, Within, IndexOf, Safe, Sorted;
      ghost var was := IndexOf(communities, name);
      var c := CommunityCreate(name);
      NothingCovered();
      Grant(c, oid, a);
      SafeSublist(views, old(views));
      forall i | 0 <= i < |communities|
        ensures Sound(communities[i])
      {
        var d := communities[i];
        if d != c {
          assert d in old(communities);
          assert old(Sound(d));
        }
      }
      forall n, b | n != name
        ensures ListOf(n, b) == old(ListOf(n, b))
      {
        IndexIs(communities, n, if was < |old(communities)| then IndexOf(old(communities), n)
          else IndexOf(old(communities), n) + 1);
      }
    }

    /**
     The loop that takes access away: the named community loses its views and, left without any, its place in the
     list.
     */
    method Strip(name: string, a: Access)
      requires forall i, j :: 0 <= i < j < |communities| ==>
        communities[i] != communities[j] && communities[i].name != communities[j].name
      requires a.Read? || IndexOf(communities, name) == |communities|
      modifies this`communities, communities
      ensures communities == Remaining(old(communities), name)
      ensures forall c :: c in old(communities) && c.name != name ==> c.ro == old(c.ro) && c.rw == old(c.rw)
      ensures EndsAt(old(Snapshot(communities)), name, a, Snapshot(communities))
    {
      hide IndexOf, EndsAt, Snapshot;
      ghost var cs, x := communities, IndexOf(communities, name);
      ghost var rest := Remaining(cs, name);
      ghost var start := Snapshot(communities);
      SnapshotAt(communities);
      var i := 0;
      while i < |communities|
        invariant i <= |communities|
        invariant (communities == cs && i <= x) || (communities == rest && x <= i)
        invariant forall c :: c in cs && c.name != name ==> c.ro == old(c.ro) && c.rw == old(c.rw)
        decreases |communities| - i
      {
        var c := communities[i];
        if c.name == name {
          if a.Read? {
            c.ro := [];
          }
          c.rw := [];
          if c.ro == [] && c.rw == [] {
            communities := communities[..i] + communities[i + 1..];
          }
        } else {
          i := i + 1;
        }
      }
      SnapshotAt(communities);
      TurnsEnd(start, name, a, x, Snapshot(communities));
    }

    /**
     Take a community's access away: everything for `Read`. Write access alone can only be taken from a name not
     registered.
     */
    method Unregister(name: string, a: Access)
      requires Valid()
      requires a.Read? || IndexOf(communities, name) == |communities|
      modifies this`communities, communities
      ensures Valid() && views == old(views) && forall c :: c in communities ==> c in old(communities)
      ensures IndexOf(communities, name) == |communities|
      ensures forall n, b :: n != name ==> ListOf(n, b) == old(ListOf(n, b))
    {
      hide ListOk, Covers, Within, IndexOf, Safe, Sorted, EndsAt, Snapshot;
      ghost var cs, x := communities, IndexOf(communities, name);
      Strip(name, a);
      forall j | 0 <= j < |communities|
        ensures Sound(communities[j])
      {
        var c := communities[j];
        assert c == cs[if j < x then j else j + 1];
        assert old(Sound(c));
      }
      RemainingNames(cs, name);
    }
  }

  /** The list without the community of this name. */
  ghost function Remaining(cs: seq<Community>, name: string): seq<Community> {
    var x := IndexOf(cs, name);
    if x < |cs| then cs[..x] + cs[x + 1..] else cs
  }

  /** Only the named community goes; every other name leads to the same community as before. */
  lemma RemainingNames(cs: seq<Community>, name: string)
    requires forall i, j :: 0 <= i < j < |cs| ==> cs[i].name != cs[j].name
    ensures IndexOf(Remaining(cs, name), name) == |Remaining(cs, name)|
    ensures forall n :: n != name ==> var r := Remaining(cs, name); var i, k := IndexOf(cs, n), IndexOf(r, n);
      (i < |cs| <==> k < |r|) && (i < |cs| ==> r[k] == cs[i])
  {
    var r, x := Remaining(cs, name), IndexOf(cs, name);
    IndexIs(r, name, |r|);
    forall n | n != name
      ensures var i, k := IndexOf(cs, n), IndexOf(r, n); (i < |cs| <==> k < |r|) && (i < |cs| ==> r[k] == cs[i])
    {
      IndexIs(r, n, if IndexOf(cs, n) <= x then IndexOf(cs, n) else IndexOf(cs, n) - 1);
    }
  }

  lemma SafePairs(all: seq<View>, vs: seq<View>, v: View)
    requires v in all && forall i :: 0 <= i < |vs| ==> vs[i] in all
    ensures Safe(all) ==> forall i :: 0 <= i < |vs| ==> CmpIsSafe(vs[i].oid, v.oid)
  {
    hide CmpIsSafe;
    if Safe(all) {
      forall i | 0 <= i < |vs|
        ensures CmpIsSafe(vs[i].oid, v.oid)
      {
        var j :| 0 <= j < |all| && all[j] == vs[i];
        var k :| 0 <= k < |all| && all[k] == v;
      }
    }
  }

  lemma SafeSublist(all: seq<View>, vs: seq<View>)
    requires forall i :: 0 <= i < |vs| ==> vs[i] in all
    ensures Safe(all) ==> Safe(vs)
  {
    hide CmpIsSafe;
    if Safe(all) {
      forall i, j | 0 <= i < |vs| && 0 <= j < |vs|
        ensures CmpIsSafe(vs[i].oid, vs[j].oid)
      {
        SafePairs(all, vs, vs[j]);
      }
    }
  }

  lemma NothingCovered()
    ensures ListOk([]) && Within([], []) && Sorted([]) && forall o :: !Covers([], o)
  {
  }

  lemma StillWithin(ro: seq<View>, rw: seq<View>, ro': seq<View>, rw': seq<View>, oid: Oid)
    requires Within(rw, ro) && (forall o :: Covers(ro', o) <==> Covers(ro, o) || oid <= o)
    requires forall o :: Covers(rw', o) ==> Covers(rw, o) || oid <= o
    ensures Within(rw', ro')
  {
    forall i | 0 <= i < |rw'|
      ensures Covers(ro', rw'[i].oid)
    {
      var o := rw'[i].oid;
      assert Covers(rw', o);
      if Covers(rw, o) {
        WithinCovers(rw, ro, o);
      }
    }
  }

  /** Position of the first community with this name; the length when there is none. */
  function IndexOf(cs: seq<Community>, name: string): (i: nat)
    ensures i <= |cs|
    ensures forall j :: 0 <= j < i ==> cs[j].name != name
    ensures i < |cs| ==> cs[i].name == name
  {
    if cs == [] || cs[0].name == name then 0 else
      var i := IndexOf(cs[1..], name);
      assert forall j :: 0 < j < i + 1 ==> cs[j] == cs[1..][j - 1];
      i + 1
  }

  lemma IndexIs(cs: seq<Community>, name: string, i: nat)
    requires i <= |cs| && (forall j :: 0 <= j < i ==> cs[j].name != name) && (i < |cs| ==> cs[i].name == name)
    ensures IndexOf(cs, name) == i
  {
  }

  /** A community as a value, and one turn of the loop that takes access away from a name. */
  datatype Grants = Grants(name: string, ro: seq<Oid>, rw: seq<Oid>)

  function Turn(cs: seq<Grants>, i: nat, name: string, a: Access): (seq<Grants>, nat)
    requires i < |cs|
  {
    if cs[i].name == name then
      var c := if a.Read? then cs[i].(ro := [], rw := []) else cs[i].(rw := []);
      if c.ro == [] && c.rw == [] then (cs[..i] + cs[i + 1..], i) else (cs[i := c], i)
    else (cs, i + 1)
  }

  /** The loop after `turns` turns; it stops at the end of the list. */
  function Turns(cs: seq<Grants>, i: nat, name: string, a: Access, turns: nat): (r: (seq<Grants>, nat))
    requires i <= |cs|
    ensures r.1 <= |r.0|
    decreases turns
  {
    if turns == 0 || i == |cs| then (cs, i)
    else
      var (cs', i') := Turn(cs, i, name, a);
      Turns(cs', i', name, a, turns - 1)
  }

  ghost function OidsOf(vs: seq<View>): seq<Oid> {
    seq(|vs|, i requires 0 <= i < |vs| => vs[i].oid)
  }

  /** The communities as values. */
  ghost function Snapshot(cs: seq<Community>): seq<Grants>
    reads cs
  {
    if cs == [] then [] else [Grants(cs[0].name, OidsOf(cs[0].ro), OidsOf(cs[0].rw))] + Snapshot(cs[1..])
  }

  lemma {:induction false} SnapshotAt(cs: seq<Community>)
    ensures |Snapshot(cs)| == |cs|
    ensures forall i :: 0 <= i < |cs| ==> Snapshot(cs)[i] == Grants(cs[i].name, OidsOf(cs[i].ro), OidsOf(cs[i].rw))
  {
    if cs != [] {
      SnapshotAt(cs[1..]);
    }
  }

  /** Some number of turns leads from the first list to the end of the second. */
  ghost predicate EndsAt(cs: seq<Grants>, name: string, a: Access, r: seq<Grants>) {
    exists n: nat :: Turns(cs, 0, name, a, n) == (r, |r|)
  }

  /** Turns over communities of other names pass them by. */
  lemma {:induction false} TurnsPass(cs: seq<Grants>, i: nat, name: string, a: Access, m: nat)
    requires i <= |cs| && i + m <= |cs| && forall j :: i <= j < i + m ==> cs[j].name != name
    ensures Turns(cs, i, name, a, m) == (cs, i + m)
    decreases m
  {
    if m > 0 {
      TurnsPass(cs, i + 1, name, a, m - 1);
    }
  }

  lemma {:induction false} TurnsAdd(cs: seq<Grants>, i: nat, name: string, a: Access, m: nat, n: nat)
    requires i <= |cs|
    ensures var (cs', i') := Turns(cs, i, name, a, m); Turns(cs, i, name, a, m + n) == Turns(cs', i', name, a, n)
    decreases m
  {
    if m > 0 && i < |cs| {
      var (cs', i') := Turn(cs, i, name, a);
      TurnsAdd(cs', i', name, a, m - 1, n);
    }
  }

  /** The turns end with the one community of the name gone. */
  lemma TurnsEnd(cs: seq<Grants>, name: string, a: Access, x: nat, r: seq<Grants>)
    requires x <= |cs| && (forall j :: 0 <= j < |cs| && j != x ==> cs[j].name != name)
    requires x < |cs| ==> a.Read? && cs[x].name == name && r == cs[..x] + cs[x + 1..]
    requires x == |cs| ==> r == cs
    ensures EndsAt(cs, name, a, r)
  {
    TurnsPass(cs, 0, name, a, x);
    if x < |cs| {
      assert Turn(cs, x, name, a) == (r, x);
      TurnsPass(r, x, name, a, |r| - x);
      assert Turns(cs, x, name, a, 1 + (|r| - x)) == (r, |r|);
      TurnsAdd(cs, 0, name, a, x, 1 + (|r| - x));
      assert Turns(cs, 0, name, a, x + (1 + (|r| - x))) == (r, |r|);
    }
  }

  ghost predicate Ends(cs: seq<Grants>, i: nat, name: string, a: Access)
    requires i <= |cs|
  {
    exists n: nat :: AtEnd(Turns(cs, i, name, a, n))
  }

  predicate AtEnd(s: (seq<Grants>, nat)) {
    s.1 == |s.0|
  }

  /** A community of this name ahead of `i` can still read. */
  ghost predicate Reader(cs: seq<Grants>, i: nat, name: string) {
    exists j :: i <= j < |cs| && cs[j].name == name && cs[j].ro != []
  }

  /**
   The loop ends for every list and name, unless it takes write access from a name that can still read: then it
   never does.
   */
  lemma {:induction false} UnregisterEnds(cs: seq<Grants>, i: nat, name: string, a: Access)
    requires i <= |cs|
    ensures Ends(cs, i, name, a) <==> !(a.Write? && Reader(cs, i, name))
    decreases |cs| - i
  {
    if i == |cs| {
      assert AtEnd(Turns(cs, i, name, a, 0));
    } else if a.Write? && cs[i].name == name && cs[i].ro != [] {
      forall n: nat
        ensures !AtEnd(Turns(cs, i, name, a, n))
      {
        Sticks(cs, i, name, n);
      }
    } else {
      var (cs', i') := Turn(cs, i, name, a);
      UnregisterEnds(cs', i', name, a);
      if Ends(cs', i', name, a) {
        var n: nat :| AtEnd(Turns(cs', i', name, a, n));
        assert AtEnd(Turns(cs, i, name, a, n + 1));
      }
      if Ends(cs, i, name, a) {
        var n: nat :| AtEnd(Turns(cs, i, name, a, n));
        assert AtEnd(Turns(cs', i', name, a, n - 1));
      }
      ReaderAhead(cs, i, name, a);
    }
  }

  lemma ReaderAhead(cs: seq<Grants>, i: nat, name: string, a: Access)
    requires i < |cs| && a.Write? ==> !(cs[i].name == name && cs[i].ro != [])
    requires i < |cs|
    ensures var (cs', i') := Turn(cs, i, name, a); a.Write? ==> (Reader(cs, i, name) <==> Reader(cs', i', name))
  {
    var (cs', i') := Turn(cs, i, name, a);
    if i' == i && a.Write? {
      assert forall j :: i <= j < |cs'| ==> cs'[j] == cs[j + 1];
      if Reader(cs, i, name) {
        var j :| i <= j < |cs| && cs[j].name == name && cs[j].ro != [];
        assert cs'[j - 1] == cs[j];
      }
    }
  }

  lemma {:induction false} Sticks(cs: seq<Grants>, i: nat, name: string, n: nat)
    requires i < |cs| && cs[i].name == name && cs[i].ro != []
    ensures !AtEnd(Turns(cs, i, name, Write, n))
    decreases n
  {
    if n > 0 {
      var (cs', i') := Turn(cs, i, name, Write);
      Sticks(cs', i', name, n - 1);
    }
  }
}
