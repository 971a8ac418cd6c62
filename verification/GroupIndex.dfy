/**
 The index of a handler's group: each block is a product of dimensions, and GETNEXT is the successor
 in the ordered product. Table positions count from 0 here.
 */
module GroupIndex {
  import opened Oids
  import opened MibTable

  type Block = seq<seq<nat>>

  /**
   Every dimension is strictly increasing. The first one has elements; the others may be empty, as in a table
   without rows.
   */
  ghost predicate BlockOk(b: Block) {
    b != [] && b[0] != [] && forall i :: 0 <= i < |b| ==> IdsSorted(b[i])
  }

  /** The tuple picks one element of each dimension. */
  ghost predicate InBlock(b: Block, w: Oid) {
    |w| == |b| && forall i :: 0 <= i < |w| ==> w[i] in b[i]
  }

  /** `r` is the least tuple of the block after `req`; the empty OID says there is none. */
  ghost predicate IsNextTuple(b: Block, req: Oid, r: Oid) {
    if r == [] then forall w :: InBlock(b, w) ==> !Less(req, w)
    else InBlock(b, r) && Less(req, r) && forall w :: InBlock(b, w) && Less(req, w) ==> Le(r, w)
  }

  /** Where in the request and where in the dimension an earlier match was made. */
  datatype Mark = Mark(offset: nat, pos: nat)

  /** The request agrees with recorded positions in the dimensions before `d`. */
  ghost predicate Matched(b: Block, req: Oid, d: nat, record: map<nat, Mark>) {
    && d <= |req| && d <= |b|
    && forall j :: 0 <= j < d ==>
         j in record && record[j].offset == j && record[j].pos < |b[j]| && b[j][record[j].pos] == req[j]
  }

  /**
   `p` starts the answer: it is made of elements, everything wanted is at or after it, and everything below it is
   wanted.
   */
  ghost predicate Starts(b: Block, req: Oid, p: Oid) {
    && |p| <= |b| && (forall i :: 0 <= i < |p| ==> p[i] in b[i])
    && (forall w :: InBlock(b, w) && Less(req, w) ==> Le(p, w))
    && (forall w :: InBlock(b, w) && p <= w ==> Less(req, w))
  }

  lemma WantedBelow(req: Oid, d: nat, w: Oid)
    requires d < |req| && Less(req, w)
    ensures Past(req[..d], w) || (req[..d] <= w && d < |w| && w[d] >= req[d])
    ensures req[..d] <= w && d < |w| && w[d] == req[d] ==> d + 1 < |w|
  {
    PrefixIsLe(req[..d], req);
    LeTrans(req[..d], req, w);
    if req[..d] <= w {
      assert w[..d] == req[..d];
      var q := req[..d + 1];
      assert |w| == d + 1 && w[d] == req[d] ==> w == q;
      PrefixIsLe(q, req);
      Trichotomy(w, req);
      if |w| == d || w[d] < req[d] {
        LessAt(w, req, d);
      }
    }
  }

  /** Nothing wanted shares the first `d` sub-ids of the request. */
  ghost predicate NoneUnder(b: Block, req: Oid, d: nat)
    requires d <= |req|
  {
    forall w :: InBlock(b, w) && Less(req, w) ==> Past(req[..d], w)
  }

  /** The request's sub-id exceeds the whole dimension. */
  lemma TooLarge(b: Block, req: Oid, d: nat)
    requires d < |b| && d < |req|
    requires forall i :: 0 <= i < |b[d]| ==> b[d][i] < req[d] || (b[d][i] == req[d] && d + 1 == |b|)
    ensures NoneUnder(b, req, d)
  {
    forall w | InBlock(b, w) && Less(req, w)
      ensures Past(req[..d], w)
    {
      WantedBelow(req, d, w);
    }
  }

  /** The matched element was the last of its dimension, so the whole prefix is used up. */
  lemma LastElement(b: Block, req: Oid, d: nat)
    requires BlockOk(b) && d < |b| && d < |req| && b[d] != [] && req[d] == b[d][|b[d]| - 1] && NoneUnder(b, req, d + 1)
    ensures NoneUnder(b, req, d)
  {
    var q := req[..d + 1];
    forall w | InBlock(b, w) && Less(req, w)
      ensures Past(req[..d], w)
    {
      assert req[..d] <= w && d < |w| && w[d] == req[d] ==> q <= w;
      WantedBelow(req, d, w);
    }
  }

  /** Moving on to a larger element of dimension `d`, with nothing wanted in between. */
  lemma StepTo(b: Block, req: Oid, d: nat, i: nat)
    requires BlockOk(b) && d < |b| && d < |req| && (forall j :: 0 <= j < d ==> req[j] in b[j])
    requires i < |b[d]| && req[d] < b[d][i]
    requires forall w :: InBlock(b, w) && Less(req, w) && req[..d] <= w ==> w[d] >= b[d][i]
    ensures Starts(b, req, req[..d] + [b[d][i]])
  {
    var y := b[d][i];
    var p := req[..d] + [y];
    LessAt(req, p, d);
    hide Less, BlockOk;
    forall w | InBlock(b, w) && Less(req, w)
      ensures Le(p, w)
    {
      WantedBelow(req, d, w);
      if Past(req[..d], w) {
        PastSubtree(req[..d], p, w);
      } else if w[d] > y {
        assert req[..d] + [w[d]] <= w;
        SiblingLess(req[..d], y, w[d], w);
      } else {
        PrefixIsLe(p, w);
      }
    }
    forall w | InBlock(b, w) && p <= w
      ensures Less(req, w)
    {
      PrefixIsLe(p, w);
      LeTrans(req, p, w);
    }
  }

  /** The first element above an absent sub-id. */
  lemma StepAbove(b: Block, req: Oid, d: nat, i: nat)
    requires BlockOk(b) && d < |b| && d < |req| && (forall j :: 0 <= j < d ==> req[j] in b[j])
    requires i < |b[d]| && req[d] < b[d][i]
    requires forall j :: 0 <= j < i ==> b[d][j] < req[d] || (b[d][j] == req[d] && d + 1 == |b|)
    ensures Starts(b, req, req[..d] + [b[d][i]])
  {
    forall w | InBlock(b, w) && Less(req, w) && req[..d] <= w
      ensures w[d] >= b[d][i]
    {
      WantedBelow(req, d, w);
      var j :| 0 <= j < |b[d]| && b[d][j] == w[d];
    }
    StepTo(b, req, d, i);
  }

  /** Backtracking: the element after the matched one, the subtree of the match being used up. */
  lemma StepNext(b: Block, req: Oid, d: nat, i: nat)
    requires BlockOk(b) && d < |b| && d < |req| && (forall j :: 0 <= j < d ==> req[j] in b[j])
    requires 0 < i < |b[d]| && b[d][i - 1] == req[d] && NoneUnder(b, req, d + 1)
    ensures Starts(b, req, req[..d] + [b[d][i]])
  {
    var q := req[..d + 1];
    forall w | InBlock(b, w) && Less(req, w) && req[..d] <= w
      ensures w[d] >= b[d][i]
    {
      assert w[d] == req[d] ==> q <= w;
      WantedBelow(req, d, w);
      var j :| 0 <= j < |b[d]| && b[d][j] == w[d];
    }
    StepTo(b, req, d, i);
  }

  /** A request shorter than the tuples starts the answer itself. */
  lemma StepShort(b: Block, req: Oid)
    requires BlockOk(b) && |req| < |b| && (forall j :: 0 <= j < |req| ==> req[j] in b[j])
    ensures Starts(b, req, req)
  {
    forall w | InBlock(b, w) && req <= w
      ensures Less(req, w)
    {
      PrefixIsLe(req, w);
    }
  }

  /** Filling in the first element of the next dimension. */
  lemma StepFill(b: Block, req: Oid, p: Oid)
    requires BlockOk(b) && Starts(b, req, p) && |p| < |b| && b[|p|] != []
    ensures Starts(b, req, p + [b[|p|][0]])
  {
    var x := b[|p|][0];
    var p' := p + [x];
    PrefixIsLe(p, p');
    forall w | InBlock(b, w) && Less(req, w)
      ensures Le(p', w)
    {
      if p <= w {
        var y := w[|p|];
        assert y in b[|p|] && p + [y] <= w;
        if x < y {
          SiblingLess(p, x, y, w);
        } else {
          PrefixIsLe(p', w);
        }
      } else {
        PastSubtree(p, p', w);
      }
    }
  }

  /** A full tuple that starts the answer is the answer. */
  lemma Complete(b: Block, req: Oid, p: Oid)
    requires BlockOk(b) && Starts(b, req, p) && |p| == |b|
    ensures IsNextTuple(b, req, p)
  {
    assert InBlock(b, p);
  }

  /**
   The request table after a search that found nothing: as it was, or moved on to a tuple that could not be
   completed.
   */
  ghost predicate LeftAt(b: Block, req: Oid, table: Oid) {
    table == req || (Less(req, table) && table != [] && b != [] && table[0] in b[0])
  }

  /**
   One step of the search for the next tuple, which then calls itself. `oid` is the request table, changed in
   place; its final content is returned beside the answer. `clean` says that it is still the request.
   */
  method GetNext(oid: Oid, offset: nat, record: map<nat, Mark>, it: Block, dim: nat, ghost req: Oid, ghost clean: bool)
    returns (r: Oid, table: Oid)
    requires BlockOk(it) && dim < |it| && offset == dim
    requires clean ==> oid == req && Matched(it, req, dim, record)
    requires !clean ==>
      && Starts(it, req, oid) && (|oid| == dim || (|oid| == dim + 1 < |it|)) && oid != []
      && Less(req, oid)
    ensures IsNextTuple(it, req, r)
    ensures r == [] ==> LeftAt(it, req, table)
    ensures r == [] && (exists w :: InBlock(it, w)) ==> clean && table == req
    ensures r != [] ==> table == r
    decreases clean, |it| - dim, 1
  {
    hide Starts, IsNextTuple, Less;
    if it[dim] == [] {
      NoTuples(it, dim, req, oid, clean);
      return [], oid;
    }
    if offset >= |oid| {
      // The request is used up: take the first element.
      if clean {
        StepShort(it, req);
      }
      StepFill(it, req, oid);
      var filled := oid + [it[dim][0]];
      Further(req, oid, filled);
      if dim + 1 == |it| {
        Complete(it, req, filled);
        return filled, filled;
      }
      r, table := GetNext(filled, offset + 1, record[dim := Mark(offset, 0)], it, dim + 1, req, false);
      return;
    }
    var xl := it[dim];
    var i := 0;
    while i < |xl|
      invariant i <= |xl|
      invariant forall j :: 0 <= j < i ==> xl[j] < oid[offset] || (xl[j] == oid[offset] && dim + 1 == |it|)
    {
      if oid[offset] == xl[i] && dim + 1 < |it| {
        r, table := GetNext(oid, offset + 1, record[dim := Mark(offset, i)], it, dim + 1, req, clean);
        return;
      } else if oid[offset] < xl[i] {
        assert clean by {
          Present(it, req, oid, dim, clean, i);
        }
        StepAbove(it, req, dim, i);
        var moved := oid[..offset] + [xl[i]];
        LessAt(req, moved, dim);
        if dim + 1 == |it| {
          Complete(it, req, moved);
          return moved, moved;
        }
        r, table := GetNext(moved, offset + 1, record[dim := Mark(offset, i)], it, dim + 1, req, false);
        return;
      }
      i := i + 1;
    }
    assert clean by {
      Present(it, req, oid, dim, clean, |xl|);
    }
    TooLarge(it, req, dim);
    r, table := Retreat(oid, record, it, dim, req);
  }

  /** A block with an empty dimension has no tuples. */
  lemma NoTuples(b: Block, d: nat, req: Oid, oid: Oid, clean: bool)
    requires d < |b| && b[d] == []
    requires !clean ==> Starts(b, req, oid) && oid != []
    ensures IsNextTuple(b, req, []) && (forall w :: !InBlock(b, w)) && (!clean ==> oid[0] in b[0])
  {
    assert forall w :: InBlock(b, w) ==> w[d] in b[d];
  }

  lemma Further(req: Oid, oid: Oid, filled: Oid)
    requires (req == oid || Less(req, oid)) && oid < filled
    ensures Less(req, filled)
  {
    PrefixIsLe(oid, filled);
    LeTrans(req, oid, filled);
  }

  /** Once the table holds part of the answer, its sub-id is found in the dimension. */
  lemma Present(it: Block, req: Oid, oid: Oid, dim: nat, clean: bool, i: nat)
    requires BlockOk(it) && dim < |it| && dim < |oid| && i <= |it[dim]|
    requires !clean ==> Starts(it, req, oid) && (|oid| == dim || (|oid| == dim + 1 < |it|))
    requires forall j :: 0 <= j < i ==> it[dim][j] < oid[dim] || (it[dim][j] == oid[dim] && dim + 1 == |it|)
    requires i < |it[dim]| ==> oid[dim] < it[dim][i]
    ensures clean
  {
    var x, xl := oid[dim], it[dim];
    assert clean || x in xl;
  }

  /** Backtrack to the last recorded dimension with a further element, or give up. */
  method Retreat(oid: Oid, record: map<nat, Mark>, it: Block, from: nat, ghost req: Oid) returns (r: Oid, table: Oid)
    requires BlockOk(it) && from < |it| && oid == req && from <= |req|
    requires Matched(it, req, from, record) && NoneUnder(it, req, from)
    ensures IsNextTuple(it, req, r)
    ensures r == [] ==> LeftAt(it, req, table)
    ensures r == [] && (exists w :: InBlock(it, w)) ==> table == req
    ensures r != [] ==> table == r
    decreases true, |it| - from, 0
  {
    hide IsNextTuple, Starts, NoneUnder, Less;
    var dim: nat, pos: nat := from, 0;
    while true
      invariant dim <= from && NoneUnder(it, req, dim)
      decreases dim
    {
      if dim == 0 {
        NothingLeft(it, req);
        return [], oid;
      }
      dim := dim - 1;
      pos := record[dim].pos + 1;
      if pos < |it[dim]| {
        break;
      }
      LastElement(it, req, dim);
    }
    StepNext(it, req, dim, pos);
    var offset := record[dim].offset;
    var moved := oid[..offset] + [it[dim][pos]];
    LessAt(req, moved, dim);
    r, table := GetNext(moved, offset, record, it, dim, req, false);
  }

  lemma NothingLeft(b: Block, req: Oid)
    requires NoneUnder(b, req, 0)
    ensures IsNextTuple(b, req, [])
  {
    forall w | InBlock(b, w)
      ensures !Less(req, w)
    {
      assert [] <= w && req[..0] == [];
    }
  }

  /** The blocks of a group in order: all names of one precede all names of the next. */
  ghost predicate BlocksOk(bs: seq<Block>) {
    && (forall i :: 0 <= i < |bs| ==> BlockOk(bs[i]))
    && (forall i, j, x, y :: 0 <= i < j < |bs| && x in bs[i][0] && y in bs[j][0] ==> x < y)
  }

  ghost predicate InBlocks(bs: seq<Block>, w: Oid) {
    exists i :: 0 <= i < |bs| && InBlock(bs[i], w)
  }

  lemma BlocksAreOrdered(bs: seq<Block>, i: nat, j: nat, v: Oid, w: Oid)
    requires BlocksOk(bs) && i < j < |bs| && v != [] && v[0] in bs[i][0] && InBlock(bs[j], w)
    ensures Less(v, w)
  {
    assert w[0] in bs[j][0];
    LessAt(v, w, 0);
  }
}
