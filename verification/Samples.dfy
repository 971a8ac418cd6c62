/**
 Octets of single values and of whole messages written out, as RFC 3416, RFC 3412 and RFC 2741 fix them. They tie the
 numbers of tags and kinds, and the order of fields, to the ones on the wire.
 */
module Samples {
  import opened Oids
  import opened Asn1
  import opened Ber
  import opened BerOid
  import opened BerValue
  import opened Message
  import opened Parsing
  import MessageIn
  import AgentX

  lemma Short(tag: byte, s: Octets)
    requires |s| < 128
    ensures Tlv(tag, s) == [tag, |s|] + s
  {
  }

  lemma One(b: byte)
    ensures Tlv(TAG_OCTSTR, [b]) == [4, 1, b]
  {
  }

  lemma Small(v: nat)
    requires v < 128
    ensures IntOctets(v) == [v] && FieldOctets(Field(v, 1)) == [2, 1, v] && FieldFits(Field(v, 1))
  {
  }

  lemma {:induction false} SmallIds(o: Oid)
    requires forall i :: 0 <= i < |o| ==> o[i] < 128
    ensures Subids(o) == o
  {
    if o != [] {
      SmallIds(o[..|o| - 1]);
    }
  }

  lemma SmallOid(o: Oid)
    requires |o| > 2 && o[0] == 1 && o[1] == 3 && forall i :: 0 <= i < |o| ==> o[i] < 128
    ensures OidOctets(o) == [0x2B] + o[2..]
  {
    SmallIds(o[2..]);
  }

  /** One value of each type with its tag and length. */
  lemma Values()
    ensures Tlv(Tag(Integer(5)), Content(Integer(5))) == [0x02, 1, 5]
    ensures Tlv(Tag(OctetString([0x61, 0x62])), Content(OctetString([0x61, 0x62]))) == [0x04, 2, 0x61, 0x62]
    ensures Tlv(Tag(ObjectId([1, 3, 6, 1])), Content(ObjectId([1, 3, 6, 1]))) == [0x06, 3, 0x2B, 6, 1]
    ensures Tlv(Tag(IpAddress([127, 0, 0, 1])), Content(IpAddress([127, 0, 0, 1]))) == [0x40, 4, 127, 0, 0, 1]
    ensures Tlv(Tag(Counter(5)), Content(Counter(5))) == [0x41, 1, 5]
    ensures Tlv(Tag(Gauge(5)), Content(Gauge(5))) == [0x42, 1, 5]
    ensures Tlv(Tag(TimeTicks(5)), Content(TimeTicks(5))) == [0x43, 1, 5]
  {
    Small(5);
    SmallOid([1, 3, 6, 1]);
    assert [1, 3, 6, 1][2..] == [6, 1];
    WrapWord(5);
  }

  const SYS_DESCR: Oid := [1, 3, 6, 1, 2, 1, 1, 1, 0]
  const PUBLIC: Octets := [0x70, 0x75, 0x62, 0x6C, 0x69, 0x63]

  lemma SysDescr()
    ensures OidOctets(SYS_DESCR) == [0x2B, 6, 1, 2, 1, 1, 1, 0]
  {
    SmallOid(SYS_DESCR);
    assert SYS_DESCR[2..] == [6, 1, 2, 1, 1, 1, 0];
  }

  lemma SysDescrVar(b: VarBind)
    requires b == VarBind(SYS_DESCR, 5, [])
    ensures VarsOctets([b]) == SYS_DESCR_LIST
  {
    hide Tlv, OidOctets;
    SysDescr();
    Short(TAG_OBJID, OidOctets(SYS_DESCR));
    Short(5, []);
    Short(TAG_SEQ, VarContent(b));
    assert VarsOctets([b]) == VarOctets(b) + VarsOctets([]);
  }

  /** The header fields 5, 6 and 7, and the bindings behind them. */
  lemma Pdu567(kind: byte, bs: seq<VarBind>)
    requires |VarsOctets(bs)| < 100
    ensures var h := Header(kind, Field(5, 1), Field(6, 1), Field(7, 1)); var list := VarsOctets(bs);
      && HeaderFits(h)
      && PduOctets(h, bs) == [kind, 11 + |list|, 2, 1, 5, 2, 1, 6, 2, 1, 7, 0x30, |list|] + list
  {
    hide Tlv, FieldOctets, VarsOctets, FieldFits;
    var h := Header(kind, Field(5, 1), Field(6, 1), Field(7, 1));
    Small(5);
    Small(6);
    Small(7);
    Short(TAG_SEQ, VarsOctets(bs));
    assert PduContent(h, bs) == [2, 1, 5, 2, 1, 6, 2, 1, 7, 0x30, |VarsOctets(bs)|] + VarsOctets(bs);
    Short(kind, PduContent(h, bs));
  }

  const GET_HEADER: Header := Header(0xA0, Field(5, 1), Field(6, 1), Field(7, 1))
  const GET: Message := Message(Field(1, 1), None, PUBLIC, GET_HEADER, [VarBind(SYS_DESCR, 5, [])])

  const SYS_DESCR_LIST: Octets := [0x30, 12, 6, 8, 0x2B, 6, 1, 2, 1, 1, 1, 0, 5, 0]

  const GET_BODY: Octets :=
    [2, 1, 1] + (([4, 6] + PUBLIC) + ([0xA0, 25, 2, 1, 5, 2, 1, 6, 2, 1, 7, 0x30, 14] + SYS_DESCR_LIST))

  lemma GetFits()
    ensures PartsFit(GET) && NamesEncodable(GET.vars)
  {
    hide OidOctets, FieldFits, HeaderFits, Tlv, PduOctets;
    Small(1);
    SysDescr();
    SysDescrVar(GET.vars[0]);
    Pdu567(0xA0, GET.vars);
    assert VarFits(GET.vars[0]);
  }

  lemma GetBody()
    ensures Body(GET) == GET_BODY
  {
    hide Tlv, FieldOctets, VarsOctets, OidOctets, PduOctets, HeaderFits;
    Small(1);
    SysDescrVar(GET.vars[0]);
    Pdu567(0xA0, GET.vars);
    Short(TAG_OCTSTR, PUBLIC);
  }

  /** A whole message has only its head in front. */
  lemma Framed(m: Message, body: Octets)
    requires PartsFit(m) && Body(m) == body && |body| < 128 && NamesEncodable(m.vars)
    ensures MessageIn.Receive([0x30, |body|] + body) == Ok(m)
  {
    hide MessageIn.Receive, Body, PartsFit;
    Short(TAG_SEQ, body);
    MessageIn.MessageRoundTrip(m);
  }

  /** A GET of sysDescr.0 for the community public, version 2c. */
  lemma Request()
    ensures |GET_BODY| == 38 && MessageIn.Receive([0x30, 38] + GET_BODY) == Ok(GET)
  {
    hide MessageIn.Receive, Body, PartsFit, NamesEncodable;
    GetFits();
    GetBody();
    Framed(GET, GET_BODY);
  }

  const GLOBAL: Global := Global(Field(1, 1), Field(2, 1), [4], Field(3, 1))
  const SECURITY: Security := Security([0x65], Field(8, 1), Field(9, 1), [0x75], [0x61], [0x70])

  lemma GlobalIs()
    ensures GlobalFits(GLOBAL) && GlobalOctets(GLOBAL) == [0x30, 12, 2, 1, 1, 2, 1, 2, 4, 1, 4, 2, 1, 3]
  {
    hide Tlv, FieldOctets, FieldFits;
    Small(1);
    Small(2);
    Small(3);
    Short(TAG_OCTSTR, [4]);
    Short(TAG_SEQ, GlobalContent(GLOBAL));
  }

  lemma SecurityIs()
    ensures SecurityFits(SECURITY)
    ensures SecurityOctets(SECURITY) ==
      [4, 20] + ([0x30, 18] + ([4, 1, 0x65] + ([2, 1, 8] + ([2, 1, 9] + ([4, 1, 0x75] +
      ([4, 1, 0x61] + [4, 1, 0x70]))))))
  {
    hide Tlv, FieldOctets, FieldFits;
    Small(8);
    Small(9);
    One(0x65);
    One(0x75);
    One(0x61);
    One(0x70);
    Short(TAG_SEQ, SecurityContent(SECURITY));
    Short(TAG_OCTSTR, Tlv(TAG_SEQ, SecurityContent(SECURITY)));
  }

  const NEXT_HEADER: Header := Header(0xA1, Field(5, 1), Field(6, 1), Field(7, 1))
  const NEXT: Message := Message(Field(3, 1), Some(V3(GLOBAL, SECURITY, [0x63])), [0x6E], NEXT_HEADER, [])

  const NEXT_SCOPED: Octets :=
    [4, 1, 0x63] + ([4, 1, 0x6E] + ([0xA1, 11, 2, 1, 5, 2, 1, 6, 2, 1, 7, 0x30, 0] + []))

  const NEXT_BODY: Octets :=
    [2, 1, 3] + ([0x30, 12, 2, 1, 1, 2, 1, 2, 4, 1, 4, 2, 1, 3] +
    (([4, 20] + ([0x30, 18] + ([4, 1, 0x65] + ([2, 1, 8] + ([2, 1, 9] + ([4, 1, 0x75] +
    ([4, 1, 0x61] + [4, 1, 0x70]))))))) + ([0x30, 19] + NEXT_SCOPED)))

  lemma NextScoped()
    ensures ScopedContent(NEXT.v3.value, NEXT) == NEXT_SCOPED && HeaderFits(NEXT_HEADER)
  {
    hide Tlv, VarsOctets, PduOctets, HeaderFits;
    assert VarsOctets([]) == [] by {
      NoVars();
    }
    Pdu567(0xA1, []);
    One(0x63);
    One(0x6E);
  }

  lemma NoVars()
    ensures VarsOctets([]) == []
  {
  }

  lemma NextBody()
    ensures PartsFit(NEXT) && Body(NEXT) == NEXT_BODY
  {
    hide Tlv, FieldOctets, FieldFits, HeaderFits, GlobalOctets, SecurityOctets, GlobalFits, SecurityFits;
    hide ScopedContent;
    Small(3);
    GlobalIs();
    SecurityIs();
    NextScoped();
    Short(TAG_SEQ, NEXT_SCOPED);
  }

  /** A GETNEXT without variables, version 3, with a different value in each field. */
  lemma RequestV3()
    ensures |NEXT_BODY| == 60 && MessageIn.Receive([0x30, 60] + NEXT_BODY) == Ok(NEXT)
  {
    hide MessageIn.Receive, Body, PartsFit;
    NextBody();
    Framed(NEXT, NEXT_BODY);
  }

  /** The word with these octets, in the byte order of the machine and of the network. */
  lemma WordOf(n: nat, a: byte, b: byte, c: byte, d: byte)
    requires n == a * 0x100_0000 + b * 0x1_0000 + c * 0x100 + d
    ensures AgentX.Ordered(n, 4, false) == [d, c, b, a] && AgentX.Ordered(n, 4, true) == [a, b, c, d]
  {
    hide AgentX.Word, Low, AgentX.WordValue, Num;
    AgentX.FourOctets(d, c, b, a);
    AgentX.WordOfValue([d, c, b, a]);
    NumOf(a, b, c, d);
    LowOfNum([a, b, c, d]);
  }

  lemma NumOf(a: byte, b: byte, c: byte, d: byte)
    ensures Num([a, b, c, d]) == a * 0x100_0000 + b * 0x1_0000 + c * 0x100 + d
  {
    hide Num;
    NumSnoc([a, b, c], d);
    NumSnoc([a, b], c);
    NumSnoc([a], b);
    NumSnoc([], a);
    assert [a, b, c] + [d] == [a, b, c, d] && [a, b] + [c] == [a, b, c] && [a] + [b] == [a, b] && [] + [a] == [a];
    NoNum();
  }

  lemma NoNum()
    ensures Num([]) == 0
  {
  }

  lemma HeaderIs(kind: byte, flags: byte, payload: byte)
    ensures var h := AgentX.Header(1, kind, flags, 0x0102_0304, 0x0506_0708, 0x090A_0B0C);
      && AgentX.HeaderOctets(h, payload, false) ==
         [1, kind, flags, 0, 4, 3, 2, 1, 8, 7, 6, 5, 12, 11, 10, 9, payload, 0, 0, 0]
      && AgentX.HeaderOctets(h, payload, true) ==
         [1, kind, flags, 0, 1, 2, 3, 4, 5, 6, 7, 8, 9, 10, 11, 12, 0, 0, 0, payload]
  {
    hide AgentX.Ordered;
    WordOf(0x0102_0304, 1, 2, 3, 4);
    WordOf(0x0506_0708, 5, 6, 7, 8);
    WordOf(0x090A_0B0C, 9, 10, 11, 12);
    WordOf(payload, 0, 0, 0, payload);
  }

  /** 1.3.6.1.2 and one more sub-id. */
  lemma ObjectIs(x: byte, included: bool)
    ensures var o := [1, 3, 6, 1, 2, x];
      AgentX.ObjectOctets(o, included) == [1, 2, if included then 1 else 0, 0, x, 0, 0, 0] && AgentX.Carried(o)
  {
    hide AgentX.Ordered;
    var o := [1, 3, 6, 1, 2, x];
    assert AgentX.Tail(o) == [x];
    WordOf(x, 0, 0, 0, x);
    assert AgentX.Words([x]) == AgentX.Ordered(x, 4, false) + AgentX.Words([]);
    assert o[..4] == [1, 3, 6, 1];
  }

  /** An AgentX GETBULK of 3 non-repeaters and 10 repetitions, from 1.3.6.1.2.1 on up to 1.3.6.1.2.2. */
  lemma MasterBulk()
    ensures AgentX.Decode(
      [1, 7, 0, 0, 4, 3, 2, 1, 8, 7, 6, 5, 12, 11, 10, 9, 20, 0, 0, 0] +
      ([3, 0, 10, 0] + [1, 2, 1, 0, 1, 0, 0, 0, 1, 2, 0, 0, 2, 0, 0, 0])) ==
      Ok(AgentX.Pdu(AgentX.Header(1, 7, 0, 0x0102_0304, 0x0506_0708, 0x090A_0B0C), [], AgentX.Bulk(3, 10), [],
        [AgentX.Range([1, 3, 6, 1, 2, 1], true, [1, 3, 6, 1, 2, 2], false)]))
  {
    hide AgentX.Decode, AgentX.ObjectOctets, AgentX.HeaderOctets, AgentX.Carried;
    var r := AgentX.Range([1, 3, 6, 1, 2, 1], true, [1, 3, 6, 1, 2, 2], false);
    HeaderIs(7, 0, 20);
    ObjectIs(1, true);
    ObjectIs(2, false);
    assert AgentX.RangesOctets([r]) == AgentX.RangeOctets(r) + AgentX.RangesOctets([]);
    assert AgentX.RangesOctets([r]) == [1, 2, 1, 0, 1, 0, 0, 0, 1, 2, 0, 0, 2, 0, 0, 0];
    assert AgentX.Word(3, 2) + AgentX.Word(10, 2) == [3, 0, 10, 0];
    AgentX.BulkBack(AgentX.Header(1, 7, 0, 0x0102_0304, 0x0506_0708, 0x090A_0B0C), 3, 10, [r]);
  }

  /** An AgentX GET in network byte order with the context c, of a range between two empty OIDs. */
  lemma MasterGet()
    ensures AgentX.Decode(
      [1, 5, 0x18, 0, 1, 2, 3, 4, 5, 6, 7, 8, 9, 10, 11, 12, 0, 0, 0, 16] +
      ([0, 0, 0, 1, 0x63, 0, 0, 0] + [0, 0, 1, 0, 0, 0, 0, 0])) ==
      Ok(AgentX.Pdu(AgentX.Header(1, 5, 0x18, 0x0102_0304, 0x0506_0708, 0x090A_0B0C), [0x63], AgentX.Plain, [],
        [AgentX.Range([], true, [], false)]))
  {
    hide AgentX.Decode, AgentX.HeaderOctets, AgentX.Ordered;
    var r := AgentX.Range([], true, [], false);
    var h := AgentX.Header(1, 5, 0x18, 0x0102_0304, 0x0506_0708, 0x090A_0B0C);
    var p := AgentX.Pdu(h, [0x63], AgentX.Plain, [], [r]);
    HeaderIs(5, 0x18, 16);
    WordOf(1, 0, 0, 0, 1);
    assert AgentX.ContextOctets([0x63], 0x18) == [0, 0, 0, 1, 0x63, 0, 0, 0];
    assert AgentX.RangesOctets([r], true) == AgentX.RangeOctets(r, true) + AgentX.RangesOctets([], true);
    assert AgentX.RangesOctets([r], true) == [0, 0, 1, 0, 0, 0, 0, 0];
    assert AgentX.Payload(p) == [0, 0, 0, 1, 0x63, 0, 0, 0] + [0, 0, 1, 0, 0, 0, 0, 0];
    AgentX.NoIds(true);
    assert AgentX.RangeComes(r, true) && AgentX.RangeShaped(r);
    AgentX.PduBack(p);
  }

  const NUMBER: AgentX.VarBind := AgentX.VarBind([1, 3, 6, 1, 2, 1], 2, AgentX.Long(5))
  const LETTER: AgentX.VarBind := AgentX.VarBind([1, 3, 6, 1, 2, 2], 4, AgentX.Text([0x61]))

  lemma NumberIs()
    ensures AgentX.VarFits(NUMBER)
    ensures AgentX.VarOctets(NUMBER) == [2, 0, 0, 0] + [1, 2, 0, 0, 1, 0, 0, 0] + [5, 0, 0, 0]
  {
    hide AgentX.ObjectOctets, AgentX.Carried;
    ObjectIs(1, false);
    WordOf(5, 0, 0, 0, 5);
    SmallPowers();
    assert AgentX.Ordered(2, 2, false) == [2, 0];
  }

  lemma LetterIs()
    ensures AgentX.VarFits(LETTER)
    ensures AgentX.VarOctets(LETTER) == [4, 0, 0, 0] + [1, 2, 0, 0, 2, 0, 0, 0] + [1, 0, 0, 0, 0x61, 0, 0, 0]
  {
    hide AgentX.ObjectOctets, AgentX.Carried;
    ObjectIs(2, false);
    WordOf(1, 0, 0, 0, 1);
    assert AgentX.Ordered(4, 2, false) == [4, 0];
    assert AgentX.TextOctets([0x61], false) == [1, 0, 0, 0, 0x61, 0, 0, 0];
  }

  const RESPONSE_BODY: Octets :=
    [0, 0, 0, 0, 5, 0, 1, 0] +
    (([2, 0, 0, 0] + [1, 2, 0, 0, 1, 0, 0, 0] + [5, 0, 0, 0]) +
    ([4, 0, 0, 0] + [1, 2, 0, 0, 2, 0, 0, 0] + [1, 0, 0, 0, 0x61, 0, 0, 0]))

  /** An AgentX response with error 5 at index 1, a number and a text of one letter. */
  lemma SubagentResponse()
    ensures AgentX.Decode([1, 18, 0, 0, 4, 3, 2, 1, 8, 7, 6, 5, 12, 11, 10, 9, 44, 0, 0, 0] + RESPONSE_BODY) ==
      Ok(AgentX.Pdu(AgentX.Header(1, 18, 0, 0x0102_0304, 0x0506_0708, 0x090A_0B0C), [], AgentX.Outcome(0, 5, 1),
        [NUMBER, LETTER], []))
  {
    hide AgentX.Decode, AgentX.HeaderOctets, AgentX.VarOctets, AgentX.VarFits;
    var h := AgentX.Header(1, 18, 0, 0x0102_0304, 0x0506_0708, 0x090A_0B0C);
    HeaderIs(18, 0, 44);
    NumberIs();
    LetterIs();
    var bs := [NUMBER, LETTER];
    assert bs[1..] == [LETTER] && [LETTER][1..] == [];
    assert AgentX.VarsOctets([LETTER]) == AgentX.VarOctets(LETTER) + AgentX.VarsOctets([]) == AgentX.VarOctets(LETTER);
    assert AgentX.VarsOctets(bs) == AgentX.VarOctets(NUMBER) + AgentX.VarsOctets([LETTER]);
    assert AgentX.Word(0, 4) + AgentX.Word(5, 2) + AgentX.Word(1, 2) == [0, 0, 0, 0, 5, 0, 1, 0];
    assert |AgentX.VarsOctets(bs)| == 36;
    assert AgentX.ResponseOctets(h, 5, 1, bs) == AgentX.HeaderOctets(h, 44) + RESPONSE_BODY;
    AgentX.ResponseBack(h, 5, 1, bs);
  }
}
