/** From the octets of a GET, GETNEXT or GETBULK request to the octets of its response. */
module Agent {
  import opened Oids
  import opened Asn1
  import opened Ber
  import opened BerOid
  import BerValue
  import opened Message
  import opened Parsing
  import MessageIn
  import MessageOut
  import opened MibTable
  import opened MibTree
  import opened Views
  import opened Dispatch
  import opened BulkWalk

  const RESPONSE: byte := 0xA2
  const REPORT: byte := 0xA8
  const TAG_NO_OBJECT: byte := 0x80
  const TAG_NO_INSTANCE: byte := 0x81
  const TAG_END_OF_VIEW: byte := 0x82

  type Sent = (Oid, MessageOut.Answer)

  /** What goes on the wire for a GETNEXT reply, and for an answer to GET. */
  function Wire(r: Reply): Sent {
    (r.oid, if r.Next? then MessageOut.Val(r.value) else MessageOut.Exception(TAG_END_OF_VIEW))
  }

  function WireGet(oid: Oid, r: Answer): Sent {
    (oid, if r.Got? then MessageOut.Val(r.value)
          else MessageOut.Exception(if r.NoSuchInstance? then TAG_NO_INSTANCE else TAG_NO_OBJECT))
  }

  function WireAll(rs: seq<Reply>): (qs: seq<Sent>)
    ensures |qs| == |rs| && forall i :: 0 <= i < |rs| ==> qs[i] == Wire(rs[i])
  {
    seq(|rs|, i requires 0 <= i < |rs| => Wire(rs[i]))
  }

  /** Every variable has a name and a value that the agent can send. */
  ghost predicate Sendable(t: Table, lua: Lua) {
    forall w :: Lookup(t, lua, w).Some? ==> MessageOut.Answerable((w, MessageOut.Val(Lookup(t, lua, w).value)))
  }

  function Starts(m: Message): (os: seq<Oid>)
    ensures |os| == |m.vars| && forall i :: 0 <= i < |os| ==> os[i] == m.vars[i].oid
  {
    seq(|m.vars|, i requires 0 <= i < |m.vars| => m.vars[i].oid)
  }

  /** The response to GET and GETNEXT keeps the request's fields. Without any variable it is a report. */
  function ResponseTo(m: Message): Message {
    m.(header := m.header.(kind := if m.vars == [] then REPORT else RESPONSE))
  }

  /** In the response to GETBULK the non-repeaters become the error status, and the repeat count an error index of 0. */
  function BulkResponseTo(m: Message): Message {
    var r := ResponseTo(m);
    r.(header := r.header.(errIdx := Field(0, m.header.errIdx.size)))
  }

  /** The fields of a request have the sizes of their values, and its OIDs short enough encodings, as in an answer. */
  ghost predicate Answerable(m: Message) {
    PartsFit(m.(vars := [])) && forall i :: 0 <= i < |m.vars| ==> |OidOctets(m.vars[i].oid)| < 256
  }

  /** The OIDs of a decoded request can be searched for, and sent back. */
  lemma RequestFits(recv: Octets, m: Message)
    requires MessageIn.Receive(recv) == Ok(m) && Answerable(m)
    ensures forall i :: 0 <= i < |m.vars| ==>
      && Proper(m.vars[i].oid)
      && forall tag :: MessageOut.Answerable((m.vars[i].oid, MessageOut.Exception(tag)))
  {
    hide MessageIn.Receive, PartsFit, OidOctets, Encodable;
    MessageIn.MessageReceived(recv);
  }

  lemma {:induction false} ChainReplies(t: Table, lua: Lua, vs: seq<View>, start: Oid, col: seq<Reply>, i: nat)
    requires Chain(t, lua, vs, start, col) && i < |col|
    ensures Replies(t, lua, vs, Cursor(start, col[..i]), col[i])
  {
    hide Replies;
    var n := |col| - 1;
    if i < n {
      ChainReplies(t, lua, vs, start, col[..n], i);
      assert col[..n][..i] == col[..i];
    }
  }

  /** A reply can be sent if the request it answers can. */
  lemma {:induction false} ChainSendable(t: Table, lua: Lua, vs: seq<View>, start: Oid, col: seq<Reply>, i: nat)
    requires Chain(t, lua, vs, start, col) && i < |col| && Sendable(t, lua)
    requires MessageOut.Answerable((start, MessageOut.Exception(TAG_END_OF_VIEW)))
    ensures MessageOut.Answerable(Wire(col[i]))
    decreases i
  {
    hide Replies, Chain, Sendable, MessageOut.Answerable;
    ChainReplies(t, lua, vs, start, col, i);
    if i > 0 {
      ChainSendable(t, lua, vs, start, col, i - 1);
      assert Cursor(start, col[..i]) == col[i - 1].oid;
      EndAnswerable(Wire(col[i - 1]));
    }
    ReplySendable(t, lua, vs, Cursor(start, col[..i]), col[i]);
  }

  /** An OID that can be sent with a value can be sent without. */
  lemma EndAnswerable(q: (Oid, MessageOut.Answer))
    requires MessageOut.Answerable(q)
    ensures MessageOut.Answerable((q.0, MessageOut.Exception(TAG_END_OF_VIEW)))
  {
  }

  lemma {:induction false} ConcatAt(rows: seq<seq<Reply>>, n: nat, k: nat)
    requires Grid(rows, n) && n > 0 && k < |Concat(rows)|
    ensures k / n < |rows| && Concat(rows)[k] == rows[k / n][k % n] == Column(rows, n, k % n)[k / n]
  {
    var m := |rows| - 1;
    ConcatCount(rows, n);
    if rows != [] {
      var pre := rows[..m];
      ConcatCount(pre, n);
      MulSucc(m, n);
      assert Concat(rows) == Concat(pre) + rows[m];
      hide Concat;
      if k < |Concat(pre)| {
        ConcatAt(pre, n, k);
        assert Column(rows, n, k % n)[k / n] == rows[k / n][k % n];
      } else {
        DivRow(k, m, n);
        assert Column(rows, n, k % n)[m] == rows[m][k % n];
      }
    }
  }

  lemma DivRow(k: nat, m: nat, n: nat)
    requires n > 0 && m * n <= k < (m + 1) * n
    ensures k / n == m && k % n == k - m * n
  {
    var q := k / n;
    assert k == q * n + k % n;
    Wider(q, m, n);
    Wider(m, q, n);
  }

  lemma Wider(x: nat, y: nat, n: nat)
    ensures x < y ==> (x + 1) * n <= y * n
  {
  }

  /** The replies of a bulk request can all be sent. */
  lemma AllSendable(t: Table, lua: Lua, vs: seq<View>, m: Message, rows: seq<seq<Reply>>)
    requires Sendable(t, lua) && Grid(rows, |m.vars|)
    requires forall i :: 0 <= i < |m.vars| ==>
      MessageOut.Answerable((m.vars[i].oid, MessageOut.Exception(TAG_END_OF_VIEW)))
    requires forall j :: 0 <= j < |m.vars| ==> Chain(t, lua, vs, m.vars[j].oid, Column(rows, |m.vars|, j))
    ensures forall k :: 0 <= k < |Concat(rows)| ==> MessageOut.Answerable(Wire(Concat(rows)[k]))
  {
    hide MessageOut.Answerable, Chain, Sendable, Concat;
    var out, n := Concat(rows), |m.vars|;
    ConcatCount(rows, n);
    forall k | 0 <= k < |out|
      ensures MessageOut.Answerable(Wire(out[k]))
    {
      NoRowsNoReplies(|rows|, n, k);
      ConcatAt(rows, n, k);
      var j := k % n;
      ChainSendable(t, lua, vs, m.vars[j].oid, Column(rows, n, j), k / n);
    }
  }

  lemma NoRowsNoReplies(r: nat, n: nat, k: nat)
    requires k < r * n
    ensures n > 0
  {
  }

  lemma BoundFits(q: Sent)
    requires MessageOut.Answerable(q)
    ensures VarFits(MessageOut.Bound(q))
  {
    if q.1.Val? {
      MessageOut.ContentSize(q.1.value);
    }
  }

  /** A response with fitting fields and answers that can be sent fits. */
  lemma ResponseFits(m: Message, qs: seq<Sent>)
    requires PartsFit(m.(vars := [])) && |qs| <= 3_000_000
    requires forall i :: 0 <= i < |qs| ==> MessageOut.Answerable(qs[i])
    ensures Fits(MessageOut.Answered(m.(vars := MessageOut.BoundAll(qs))))
  {
    var r := MessageOut.Answered(m.(vars := MessageOut.BoundAll(qs)));
    hide MessageOctets, VarFits, MessageOut.Answerable;
    forall i | 0 <= i < |qs|
      ensures VarFits(r.vars[i])
    {
      BoundFits(qs[i]);
    }
    MessageOut.MessageSmall(r);
  }

  /** Decoded, what is sent has the fields of the response and carries the answers, in order. */
  ghost predicate Carries(m: Message, qs: seq<Sent>, sent: Octets) {
    var r := MessageIn.Receive(sent);
    && r.Ok? && MessageOut.Envelope(m, r.value) && r.value.header == m.header
    && |r.value.vars| == |qs| && forall k :: 0 <= k < |qs| ==> MessageOut.Reads(r.value.vars[k], qs[k])
  }

  /** Encode a response with its answers. */
  method Send(m: Message, qs: seq<Sent>) returns (sent: array<byte>)
    requires PartsFit(m.(vars := [])) && |qs| <= 3_000_000
    requires forall k :: 0 <= k < |qs| ==> MessageOut.Answerable(qs[k])
    ensures Carries(m, qs, sent[..])
  {
    hide PartsFit, Fits, MessageOctets, MessageIn.Receive, MessageOut.Answerable, MessageOut.Reads;
    hide MessageOut.Answered, MessageOut.BoundAll, MessageOut.Envelope;
    ResponseFits(m, qs);
    sent := MessageOut.Deliver(m, qs);
  }

  lemma ResponseParts(m: Message)
    requires PartsFit(m.(vars := []))
    ensures PartsFit(ResponseTo(m).(vars := []))
    ensures m.header.errIdx.size == 1 ==> PartsFit(BulkResponseTo(m).(vars := []))
  {
    assert IntOctets(0) == [0];
  }

  /** The header of a response, for the request `m`; only its error index is not always the request's. */
  ghost predicate Headed(m: Message, index: Field, r: Message) {
    && MessageOut.Envelope(m, r)
    && r.header.kind == (if m.vars == [] then 0xA8 else 0xA2)
    && r.header.reqId == m.header.reqId && r.header.errStat == m.header.errStat && r.header.errIdx == index
  }

  /** A binding shows a reply: the variable with its value in the tree, or the end of the view. */
  ghost predicate Shows(t: Table, lua: Lua, r: Reply, b: VarBind) {
    && b.oid == r.oid
    && if r.Next? then BerValue.FromContent(b.tag, b.value) == Lookup(t, lua, b.oid) == Some(r.value)
       else b.tag == 0x82 && b.value == []
  }

  /** Where the binding of row `k` and column `j` is. */
  function Place(k: nat, j: nat, n: nat): nat {
    k * n + j
  }

  /** The bindings are the rows of replies one after the other. */
  ghost predicate ShowsRows(t: Table, lua: Lua, rows: seq<seq<Reply>>, n: nat, bs: seq<VarBind>) {
    && Grid(rows, n) && |bs| == |rows| * n
    && forall k, j :: 0 <= k < |rows| && 0 <= j < n ==>
         Place(k, j, n) < |bs| && Shows(t, lua, rows[k][j], bs[Place(k, j, n)])
  }

  lemma ReadShows(t: Table, lua: Lua, vs: seq<View>, orig: Oid, r: Reply, b: VarBind)
    requires Replies(t, lua, vs, orig, r) && MessageOut.Reads(b, Wire(r))
    ensures Shows(t, lua, r, b)
  {
    hide BerValue.FromContent, Lookup, InOrder;
  }

  lemma HeadedBy(m: Message, qs: seq<Sent>, sent: Octets)
    ensures Carries(ResponseTo(m), qs, sent) ==> Headed(m, m.header.errIdx, MessageIn.Receive(sent).value)
    ensures Carries(BulkResponseTo(m), qs, sent) ==>
      Headed(m, Field(0, m.header.errIdx.size), MessageIn.Receive(sent).value)
  {
    hide MessageIn.Receive, MessageOut.Reads, MessageOut.EnvelopeV3;
  }

  lemma PlaceIn(k: nat, j: nat, r: nat, n: nat)
    requires k < r && j < n
    ensures var i := Place(k, j, n); i < r * n && i / n == k && i % n == j
  {
    Wider(k, r, n);
    MulSucc(k, n);
    DivRow(k * n + j, k, n);
  }

  lemma EntryShown(t: Table, lua: Lua, vs: seq<View>, start: Oid, rows: seq<seq<Reply>>, n: nat, k: nat, j: nat, i: nat,
                   b: VarBind)
    requires Grid(rows, n) && k < |rows| && j < n && i < |Concat(rows)| && i / n == k && i % n == j
    requires Chain(t, lua, vs, start, Column(rows, n, j)) && MessageOut.Reads(b, Wire(Concat(rows)[i]))
    ensures Shows(t, lua, rows[k][j], b)
  {
    hide Chain, Shows, Concat, MessageOut.Reads, Replies, Wire;
    var col := Column(rows, n, j);
    ConcatAt(rows, n, i);
    ChainReplies(t, lua, vs, start, col, k);
    ReadShows(t, lua, vs, Cursor(start, col[..k]), col[k], b);
  }

  /** What was sent for a bulk request, row by row. */
  lemma RowsShown(t: Table, lua: Lua, vs: seq<View>, m: Message, rows: seq<seq<Reply>>, bs: seq<VarBind>)
    requires Grid(rows, |m.vars|) && |bs| == |Concat(rows)|
    requires forall j :: 0 <= j < |m.vars| ==> Chain(t, lua, vs, m.vars[j].oid, Column(rows, |m.vars|, j))
    requires forall i :: 0 <= i < |bs| ==> MessageOut.Reads(bs[i], Wire(Concat(rows)[i]))
    ensures ShowsRows(t, lua, rows, |m.vars|, bs)
  {
    hide Chain, Shows, Concat, MessageOut.Reads, Column, Wire, Place;
    var n := |m.vars|;
    ConcatCount(rows, n);
    forall k, j | 0 <= k < |rows| && 0 <= j < n
      ensures Place(k, j, n) < |bs| && Shows(t, lua, rows[k][j], bs[Place(k, j, n)])
    {
      var i := Place(k, j, n);
      PlaceIn(k, j, |rows|, n);
      EntryShown(t, lua, vs, m.vars[j].oid, rows, n, k, j, i, bs[i]);
    }
  }

  /**
   A GETBULK from octets to octets. Whatever octets decode to a request for up to 127 repetitions, they are answered
   with octets from which the agent's own decoder reads the request's fields and, column by column, the walk through
   the variables the community can see, each with its value in the tree.
   */
  method ServeBulk(tree: Tree, lua: Lua, c: Community, recv: Octets, ghost m: Message)
    returns (sent: array<byte>, ghost rows: seq<seq<Reply>>)
    requires tree.Valid() && Served(tree.table, lua) && Sendable(tree.table, lua) && c.Ok() && c.ro != []
    requires MessageIn.Receive(recv) == Ok(m) && Answerable(m)
    requires 0 <= m.header.errIdx.v && m.header.errIdx.size == 1 && m.header.errIdx.v * |m.vars| <= 3_000_000
    ensures var r := MessageIn.Receive(sent[..]); r.Ok? && Headed(m, Field(0, 1), r.value)
    ensures ShowsRows(tree.table, lua, rows, |m.vars|, MessageIn.Receive(sent[..]).value.vars)
    ensures |rows| == m.header.errIdx.v && Grid(rows, |m.vars|)
    ensures forall j :: 0 <= j < |m.vars| ==>
      Chain(tree.table, lua, c.ro, m.vars[j].oid, Column(rows, |m.vars|, j))
    ensures Orderly(c.ro) ==> forall j :: 0 <= j < |m.vars| ==>
      && WalksOn(tree.table, lua, c.ro, m.vars[j].oid, Column(rows, |m.vars|, j))
      && (Comparable(c.ro, m.vars[j].oid) ==>
          Walks(tree.table, lua, c.ro, m.vars[j].oid, Column(rows, |m.vars|, j)))
  {
    hide Tree.Valid, Served, Sendable, Community.Ok, PartsFit, Chain, Walks, WalksOn, Concat, Wire;
    hide MessageIn.Receive, MessageOut.Answerable, Proper, Comparable, Orderly, Column, OidOctets;
    hide MessageOut.Envelope, MessageOut.Reads, Headed, ShowsRows;
    RequestFits(recv, m);
    ResponseParts(m);
    var got := MessageIn.Receive(recv).value;
    var replies;
    replies, rows := BulkGet(tree, lua, c, Starts(got), got.header.errIdx.v);
    AllSendable(tree.table, lua, c.ro, got, rows);
    sent := Send(BulkResponseTo(got), WireAll(replies));
    HeadedBy(m, WireAll(replies), sent[..]);
    RowsShown(tree.table, lua, c.ro, m, rows, MessageIn.Receive(sent[..]).value.vars);
  }

  /** A reply to a request that can be sent back can be sent. */
  lemma ReplySendable(t: Table, lua: Lua, vs: seq<View>, orig: Oid, r: Reply)
    requires Sendable(t, lua) && Replies(t, lua, vs, orig, r)
    requires MessageOut.Answerable((orig, MessageOut.Exception(TAG_END_OF_VIEW)))
    ensures MessageOut.Answerable(Wire(r))
  {
    hide MessageOut.Answerable, Lookup, InOrder;
  }

  /**
   A GETNEXT from octets to octets: every variable of the request is answered with the agent's next one and the value
   it has in the tree.
   */
  method ServeNext(tree: Tree, lua: Lua, c: Community, recv: Octets, ghost m: Message)
    returns (sent: array<byte>, ghost out: seq<Reply>)
    requires tree.Valid() && Served(tree.table, lua) && Sendable(tree.table, lua) && c.Ok() && c.ro != []
    requires MessageIn.Receive(recv) == Ok(m) && Answerable(m) && |m.vars| <= 3_000_000
    ensures var r := MessageIn.Receive(sent[..]);
      r.Ok? && Headed(m, m.header.errIdx, r.value) && |r.value.vars| == |m.vars|
    ensures var r := MessageIn.Receive(sent[..]);
      && |out| == |m.vars|
      && forall i :: 0 <= i < |m.vars| ==> Shows(tree.table, lua, out[i], r.value.vars[i])
    ensures forall i :: 0 <= i < |m.vars| ==> Replies(tree.table, lua, c.ro, m.vars[i].oid, out[i])
  {
    hide Tree.Valid, Served, Sendable, Community.Ok, PartsFit, Replies, Shows, Wire, Headed;
    hide MessageIn.Receive, MessageOut.Answerable, MessageOut.Envelope, MessageOut.Reads, Proper, OidOctets;
    RequestFits(recv, m);
    ResponseParts(m);
    var got := MessageIn.Receive(recv).value;
    var replies := [];
    for i := 0 to |got.vars|
      invariant |replies| == i && tree.Valid()
      invariant forall j :: 0 <= j < i ==>
        Replies(tree.table, lua, c.ro, m.vars[j].oid, replies[j]) && MessageOut.Answerable(Wire(replies[j]))
    {
      var r := GetNext(tree, lua, c, got.vars[i].oid);
      ReplySendable(tree.table, lua, c.ro, got.vars[i].oid, r);
      replies := replies + [r];
    }
    out := replies;
    sent := Send(ResponseTo(got), WireAll(replies));
    HeadedBy(m, WireAll(replies), sent[..]);
    forall i | 0 <= i < |m.vars|
      ensures Shows(tree.table, lua, out[i], MessageIn.Receive(sent[..]).value.vars[i])
    {
      ReadShows(tree.table, lua, c.ro, m.vars[i].oid, out[i], MessageIn.Receive(sent[..]).value.vars[i]);
    }
  }

  /**
   What GET answers for one OID: its value exactly when it is a variable that the search for a view reaches, and
   else what the last search reports.
   */
  ghost predicate Gives(t: Table, lua: Lua, vs: seq<View>, oid: Oid, r: Answer) {
    && (r.Got? <==> IsVar(t, lua, oid) && Reaches(vs, oid))
    && (r.Got? ==> Lookup(t, lua, oid) == Some(r.value))
    && (!r.Got? ==> Reports(t, vs, oid, r))
  }

  /** A binding gives an answer to GET: the value in the tree, or noSuchInstance or noSuchObject without content. */
  ghost predicate Presents(t: Table, lua: Lua, oid: Oid, r: Answer, b: VarBind) {
    && b.oid == oid
    && match r
       case Got(v) => BerValue.FromContent(b.tag, b.value) == Lookup(t, lua, oid) == Some(v)
       case NoSuchInstance => b.tag == 0x81 && b.value == []
       case _ => b.tag == 0x80 && b.value == []
  }

  lemma ReadPresents(t: Table, lua: Lua, vs: seq<View>, oid: Oid, r: Answer, b: VarBind)
    requires Gives(t, lua, vs, oid, r) && MessageOut.Reads(b, WireGet(oid, r))
    ensures Presents(t, lua, oid, r, b)
  {
    hide BerValue.FromContent, Lookup, IsVar, Reaches, Reports;
  }

  function WireGets(m: Message, rs: seq<Answer>): (qs: seq<Sent>)
    requires |rs| == |m.vars|
    ensures |qs| == |rs| && forall i :: 0 <= i < |rs| ==> qs[i] == WireGet(m.vars[i].oid, rs[i])
  {
    seq(|rs|, i requires 0 <= i < |rs| => WireGet(m.vars[i].oid, rs[i]))
  }

  /** A GET from octets to octets: every variable of the request comes with its value, or with an exception. */
  method ServeGet(tree: Tree, lua: Lua, c: Community, recv: Octets, ghost m: Message)
    returns (sent: array<byte>, ghost out: seq<Answer>)
    requires tree.Valid() && Served(tree.table, lua) && Sendable(tree.table, lua) && c.Ok() && c.ro != []
    requires MessageIn.Receive(recv) == Ok(m) && Answerable(m) && |m.vars| <= 3_000_000
    ensures var r := MessageIn.Receive(sent[..]);
      r.Ok? && Headed(m, m.header.errIdx, r.value) && |r.value.vars| == |m.vars|
    ensures var r := MessageIn.Receive(sent[..]);
      && |out| == |m.vars|
      && forall i :: 0 <= i < |m.vars| ==> Presents(tree.table, lua, m.vars[i].oid, out[i], r.value.vars[i])
    ensures forall i :: 0 <= i < |m.vars| ==> Gives(tree.table, lua, c.ro, m.vars[i].oid, out[i])
  {
    hide Tree.Valid, Served, Community.Ok, PartsFit, Lookup, IsVar, Reaches, Reports, Presents, Headed;
    hide MessageIn.Receive, MessageOut.Answerable, MessageOut.Envelope, MessageOut.Reads, Proper, OidOctets;
    RequestFits(recv, m);
    ResponseParts(m);
    var got := MessageIn.Receive(recv).value;
    var answers := [];
    for i := 0 to |got.vars|
      invariant |answers| == i && tree.Valid()
      invariant forall j :: 0 <= j < i ==>
        && Gives(tree.table, lua, c.ro, m.vars[j].oid, answers[j])
        && MessageOut.Answerable(WireGet(m.vars[j].oid, answers[j]))
    {
      var access, r := Dispatch.Get(tree, lua, c, got.vars[i].oid);
      answers := answers + [r];
    }
    out := answers;
    sent := Send(ResponseTo(got), WireGets(got, answers));
    HeadedBy(m, WireGets(got, answers), sent[..]);
    hide Gives, WireGet;
    forall i | 0 <= i < |m.vars|
      ensures Presents(tree.table, lua, m.vars[i].oid, out[i], MessageIn.Receive(sent[..]).value.vars[i])
    {
      ReadPresents(tree.table, lua, c.ro, m.vars[i].oid, out[i], MessageIn.Receive(sent[..]).value.vars[i]);
    }
  }
}
