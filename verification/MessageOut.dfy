/**
 Building a response: lengths are summed up first, from the innermost outwards, then the octets are written through
 a cursor into a buffer of exactly the summed size.
 */
module MessageOut {
  import opened Oids
  import opened Asn1
  import opened Ber
  import opened BerOid
  import opened BerValue
  import opened Message
  import opened Parsing
  import MessageIn

  /** Size of a tag, a length and `n` octets of content. */
  function Size(n: nat): nat {
    1 + |LengthOctets(n % ID_MODULUS)| + n
  }

  lemma SizeIs(n: nat)
    requires n < ID_MODULUS
    ensures Size(n) == 1 + |LengthOctets(n)| + n
  {
  }

  lemma TlvIsSize(tag: byte, s: Octets)
    ensures |Tlv(tag, s)| == Size(|s|)
  {
  }

  lemma FieldIsSize(f: Field)
    requires FieldFits(f)
    ensures |FieldOctets(f)| == Size(f.size)
  {
  }

  method Framed(n: nat) returns (r: nat)
    requires n < ID_MODULUS
    ensures r == Size(n)
  {
    var lenLen := LengthEncTry(n);
    r := 1 + lenLen + n;
  }

  // ---------- What the sums must come to

  lemma VarSizes(b: VarBind)
    ensures |VarContent(b)| == Size(|OidOctets(b.oid)|) + Size(|b.value|) && |VarOctets(b)| == Size(|VarContent(b)|)
  {
  }

  lemma PduSizes(h: Header, bs: seq<VarBind>)
    requires HeaderFits(h)
    ensures |PduContent(h, bs)| ==
      Size(|VarsOctets(bs)|) + Size(h.reqId.size) + Size(h.errStat.size) + Size(h.errIdx.size)
    ensures |PduOctets(h, bs)| == Size(|PduContent(h, bs)|)
  {
  }

  lemma GlobalSizes(g: Global)
    requires GlobalFits(g)
    ensures |GlobalContent(g)| == Size(g.id.size) + Size(g.maxSize.size) + Size(|g.flags|) + Size(g.model.size)
    ensures |GlobalOctets(g)| == Size(|GlobalContent(g)|)
  {
  }

  lemma SecuritySizes(x: Security)
    requires SecurityFits(x)
    ensures |SecurityContent(x)| ==
      Size(|x.engineId|) + Size(x.boots.size) + Size(x.time.size) + Size(|x.user|) + Size(|x.auth|) + Size(|x.priv|)
    ensures |SecurityOctets(x)| == Size(Size(|SecurityContent(x)|))
  {
    hide Size, Tlv, FieldOctets;
    TlvIsSize(TAG_OCTSTR, x.engineId);
    FieldIsSize(x.boots);
    FieldIsSize(x.time);
    TlvIsSize(TAG_OCTSTR, x.user);
    TlvIsSize(TAG_OCTSTR, x.auth);
    TlvIsSize(TAG_OCTSTR, x.priv);
    TlvIsSize(TAG_SEQ, SecurityContent(x));
    TlvIsSize(TAG_OCTSTR, Tlv(TAG_SEQ, SecurityContent(x)));
  }

  lemma BodySizes(m: Message)
    requires FieldFits(m.version)
    ensures |NamedPdu(m)| == Size(|m.name|) + |PduOctets(m.header, m.vars)|
    ensures m.v3.None? ==> |Body(m)| == Size(m.version.size) + |NamedPdu(m)|
    ensures m.v3.Some? ==> var x := m.v3.value;
      && |ScopedContent(x, m)| == Size(|x.contextId|) + |NamedPdu(m)|
      && |Body(m)| ==
         Size(m.version.size) + |GlobalOctets(x.global)| + |SecurityOctets(x.security)| + Size(|ScopedContent(x, m)|)
    ensures |MessageOctets(m)| == Size(|Body(m)|)
  {
    hide Size, Tlv, FieldOctets;
    FieldIsSize(m.version);
    TlvIsSize(TAG_OCTSTR, m.name);
    TlvIsSize(TAG_SEQ, Body(m));
    if m.v3.Some? {
      TlvIsSize(TAG_OCTSTR, m.v3.value.contextId);
      TlvIsSize(TAG_SEQ, ScopedContent(m.v3.value, m));
    }
  }

  lemma {:induction false} VarsSmall(bs: seq<VarBind>)
    requires forall i :: 0 <= i < |bs| ==> |OidOctets(bs[i].oid)| < 256 && |bs[i].value| <= VALUE_MAX_LEN
    ensures |VarsOctets(bs)| <= 1300 * |bs|
  {
    hide VarOctets, VarContent, OidOctets;
    if bs != [] {
      VarSizes(bs[0]);
      VarsSmall(bs[1..]);
    }
  }

  /** Three million bindings stay below 2^32 octets. */
  lemma MessageSmall(m: Message)
    requires PartsFit(m) && |m.vars| <= 3_000_000
    ensures Fits(m)
  {
    hide VarsOctets, Body, ScopedContent, NamedPdu, PduOctets, PduContent, MessageOctets, GlobalContent;
    hide SecurityContent;
    hide GlobalOctets, SecurityOctets, OidOctets;
    VarsSmall(m.vars);
    BodySizes(m);
    PduSizes(m.header, m.vars);
    IntRoundTrip(m.version.v);
    IntRoundTrip(m.header.reqId.v);
    IntRoundTrip(m.header.errStat.v);
    IntRoundTrip(m.header.errIdx.v);
    hide IntOctets;
    if m.v3.Some? {
      V3Small(m.v3.value);
      GlobalSizes(m.v3.value.global);
      SecuritySizes(m.v3.value.security);
    }
  }

  /** Every length of a message below 2^32 octets is below 2^32. */
  lemma Bounds(m: Message)
    requires Fits(m)
    ensures |VarsOctets(m.vars)| < |PduContent(m.header, m.vars)| < |NamedPdu(m)|
    ensures |NamedPdu(m)| < |Body(m)| < |MessageOctets(m)| < ID_MODULUS
    ensures m.v3.Some? ==> |ScopedContent(m.v3.value, m)| < ID_MODULUS
  {
    hide VarsOctets, Tlv, FieldOctets, GlobalOctets, SecurityOctets;
    BodySizes(m);
    PduSizes(m.header, m.vars);
  }

  /** A response carries the agent's own engine id, and its flags are cleared. */
  function Answered(m: Message): Message {
    if m.v3.None? then m else m.(v3 := Some(AnsweredV3(m.v3.value)))
  }

  function AnsweredV3(x: V3): V3 {
    V3(x.global.(flags := seq(|x.global.flags|, _ => 0)), x.security.(engineId := ENGINE_ID), ENGINE_ID)
  }

  /**
   The fields around the PDU of a response `r` to `m`: those of the request, but from version 3 on the agent's engine
   id, 80 00 00 00 04 and "SmartSNMP", stands in both places, and all flags are clear.
   */
  ghost predicate Envelope(m: Message, r: Message) {
    && r.version == m.version && r.name == m.name
    && (m.version.v < 3 ==> r.v3 == m.v3)
    && (m.version.v >= 3 ==> m.v3.Some? && r.v3.Some? && EnvelopeV3(m.v3.value, r.v3.value))
  }

  ghost predicate EnvelopeV3(x: V3, y: V3) {
    && y.security.engineId == [0x80, 0, 0, 0, 4, 83, 109, 97, 114, 116, 83, 78, 77, 80]
    && y.contextId == [0x80, 0, 0, 0, 4, 83, 109, 97, 114, 116, 83, 78, 77, 80]
    && |y.global.flags| == |x.global.flags| && (forall i :: 0 <= i < |y.global.flags| ==> y.global.flags[i] == 0)
    && y.global.id == x.global.id && y.global.maxSize == x.global.maxSize && y.global.model == x.global.model
    && y.security.boots == x.security.boots && y.security.time == x.security.time
    && y.security.user == x.security.user && y.security.auth == x.security.auth && y.security.priv == x.security.priv
  }

  lemma AnsweredIs(m: Message)
    requires Fits(Answered(m))
    ensures Envelope(m, Answered(m)) && Answered(m).header == m.header && Answered(m).vars == m.vars
  {
    hide MessageOctets, FieldFits, HeaderFits, VarFits;
    assert ENGINE_ID == [0x80, 0, 0, 0, 4, 83, 109, 97, 114, 116, 83, 78, 77, 80];
  }

  // ---------- Writing

  method PutHead(tag: byte, n: nat, buf: array<byte>, at: nat) returns (next: nat)
    requires n < ID_MODULUS && at + |Head(tag, n)| <= buf.Length
    modifies buf
    ensures next == at + |Head(tag, n)| && buf[..next] == old(buf[..at]) + Head(tag, n)
  {
    hide LengthOctets;
    buf[at] := tag;
    next := LengthEnc(n, buf, at + 1);
  }

  method PutField(f: Field, buf: array<byte>, at: nat) returns (next: nat)
    requires FieldFits(f) && at + |FieldOctets(f)| <= buf.Length
    modifies buf
    ensures next == at + |FieldOctets(f)| && buf[..next] == old(buf[..at]) + FieldOctets(f)
  {
    IntRoundTrip(f.v);
    hide IntOctets, Head;
    next := PutHead(TAG_INT, f.size, buf, at);
    next := IntEnc(f.v, buf, next);
  }

  method PutString(tag: byte, s: Octets, buf: array<byte>, at: nat) returns (next: nat)
    requires |s| < ID_MODULUS && at + |Tlv(tag, s)| <= buf.Length
    modifies buf
    ensures next == at + |Tlv(tag, s)| && buf[..next] == old(buf[..at]) + Tlv(tag, s)
  {
    hide Head;
    next := PutHead(tag, |s|, buf, at);
    next := Copy(s, buf, next);
  }

  method PutGlobal(g: Global, len: nat, buf: array<byte>, at: nat) returns (next: nat)
    requires GlobalFits(g) && len == |GlobalContent(g)| < ID_MODULUS && at + |GlobalOctets(g)| <= buf.Length
    modifies buf
    ensures next == at + |GlobalOctets(g)| && buf[..next] == old(buf[..at]) + GlobalOctets(g)
  {
    hide Head, FieldOctets, FieldFits;
    next := PutHead(TAG_SEQ, len, buf, at);
    next := PutField(g.id, buf, next);
    next := PutField(g.maxSize, buf, next);
    next := PutString(TAG_OCTSTR, g.flags, buf, next);
    next := PutField(g.model, buf, next);
  }

  method PutSecurity(x: Security, len: nat, buf: array<byte>, at: nat) returns (next: nat)
    requires SecurityFits(x) && len == |SecurityContent(x)| < ID_MODULUS
    requires at + |Tlv(TAG_SEQ, SecurityContent(x))| <= buf.Length
    modifies buf
    ensures next == at + |Tlv(TAG_SEQ, SecurityContent(x))|
    ensures buf[..next] == old(buf[..at]) + Tlv(TAG_SEQ, SecurityContent(x))
  {
    hide Head, Tlv, SecurityContent, SecurityFits, EngineOctets, NamesOctets, LengthOctets;
    ghost var p, h, e, n := buf[..at], Head(TAG_SEQ, len), EngineOctets(x), NamesOctets(x);
    TlvIs(TAG_SEQ, SecurityContent(x));
    SecurityHalves(x);
    next := PutHead(TAG_SEQ, len, buf, at);
    next := PutEngine(x, buf, next);
    next := PutNames(x, buf, next);
    assert p + h + e + n == p + (h + (e + n));
  }

  function EngineOctets(x: Security): Octets {
    Tlv(TAG_OCTSTR, x.engineId) + (FieldOctets(x.boots) + FieldOctets(x.time))
  }

  function NamesOctets(x: Security): Octets {
    Tlv(TAG_OCTSTR, x.user) + (Tlv(TAG_OCTSTR, x.auth) + Tlv(TAG_OCTSTR, x.priv))
  }

  lemma SecurityHalves(x: Security)
    ensures SecurityContent(x) == EngineOctets(x) + NamesOctets(x)
  {
    hide Tlv, FieldOctets;
    var n := NamesOctets(x);
    var a, b, c := Tlv(TAG_OCTSTR, x.engineId), FieldOctets(x.boots), FieldOctets(x.time);
    assert a + (b + (c + n)) == (a + (b + c)) + n;
  }

  method PutEngine(x: Security, buf: array<byte>, at: nat) returns (next: nat)
    requires SecurityFits(x) && at + |EngineOctets(x)| <= buf.Length
    modifies buf
    ensures next == at + |EngineOctets(x)| && buf[..next] == old(buf[..at]) + EngineOctets(x)
  {
    hide Tlv, FieldOctets, FieldFits;
    next := PutString(TAG_OCTSTR, x.engineId, buf, at);
    next := PutField(x.boots, buf, next);
    next := PutField(x.time, buf, next);
  }

  method PutNames(x: Security, buf: array<byte>, at: nat) returns (next: nat)
    requires SecurityFits(x) && at + |NamesOctets(x)| <= buf.Length
    modifies buf
    ensures next == at + |NamesOctets(x)| && buf[..next] == old(buf[..at]) + NamesOctets(x)
  {
    hide Tlv, FieldFits;
    next := PutString(TAG_OCTSTR, x.user, buf, at);
    next := PutString(TAG_OCTSTR, x.auth, buf, next);
    next := PutString(TAG_OCTSTR, x.priv, buf, next);
  }

  /** Everything in front of the bindings inside the PDU. */
  ghost function PduStart(h: Header, bs: seq<VarBind>): Octets {
    Head(h.kind, |PduContent(h, bs)|) + FieldOctets(h.reqId) + FieldOctets(h.errStat) + FieldOctets(h.errIdx) +
    Head(TAG_SEQ, |VarsOctets(bs)|)
  }

  method PutPdu(h: Header, ghost bs: seq<VarBind>, pduLen: nat, listLen: nat, buf: array<byte>, at: nat)
    returns (next: nat)
    requires HeaderFits(h) && pduLen == |PduContent(h, bs)| < ID_MODULUS && listLen == |VarsOctets(bs)| < ID_MODULUS
    requires at + |PduStart(h, bs)| <= buf.Length
    modifies buf
    ensures next == at + |PduStart(h, bs)| && buf[..next] == old(buf[..at]) + PduStart(h, bs)
  {
    hide Head, FieldOctets, FieldFits, VarsOctets;
    next := PutHead(h.kind, pduLen, buf, at);
    next := PutField(h.reqId, buf, next);
    next := PutField(h.errStat, buf, next);
    next := PutField(h.errIdx, buf, next);
    next := PutHead(TAG_SEQ, listLen, buf, next);
  }

  /** Everything in front of the name. */
  ghost function Start(m: Message): Octets {
    Head(TAG_SEQ, |Body(m)|) + FieldOctets(m.version) +
    match m.v3
    case None => []
    case Some(x) => StartV3(x, |ScopedContent(x, m)|)
  }

  ghost function StartV3(x: V3, scope: nat): Octets {
    GlobalOctets(x.global) + SecurityOctets(x.security) + Head(TAG_SEQ, scope) + Tlv(TAG_OCTSTR, x.contextId)
  }

  lemma PduFromStart(h: Header, bs: seq<VarBind>)
    ensures PduStart(h, bs) + VarsOctets(bs) == PduOctets(h, bs)
  {
    hide Head, FieldOctets, VarsOctets;
    var list := VarsOctets(bs);
    var a, b, c, d := FieldOctets(h.reqId), FieldOctets(h.errStat), FieldOctets(h.errIdx), Head(TAG_SEQ, |list|);
    var k := Head(h.kind, |PduContent(h, bs)|);
    assert PduOctets(h, bs) == k + (a + (b + (c + (d + list))));
    assert k + a + b + c + d + list == k + (a + (b + (c + (d + list))));
  }

  lemma MessageFromStart(m: Message)
    ensures Start(m) + Tlv(TAG_OCTSTR, m.name) + PduStart(m.header, m.vars) + VarsOctets(m.vars) == MessageOctets(m)
  {
    hide Head, FieldOctets, VarsOctets, PduStart, PduOctets, GlobalOctets, SecurityOctets;
    var pdu, start, list := PduOctets(m.header, m.vars), PduStart(m.header, m.vars), VarsOctets(m.vars);
    var name := Tlv(TAG_OCTSTR, m.name);
    PduFromStart(m.header, m.vars);
    assert Start(m) + name + start + list == Start(m) + (name + (start + list));
    var h, v := Head(TAG_SEQ, |Body(m)|), FieldOctets(m.version);
    match m.v3 {
      case None =>
        assert h + v + [] + (name + pdu) == h + (v + (name + pdu));
      case Some(x) =>
        var g, s := GlobalOctets(x.global), SecurityOctets(x.security);
        var c, i := Head(TAG_SEQ, |ScopedContent(x, m)|), Tlv(TAG_OCTSTR, x.contextId);
        assert (h + v + (g + s + c + i)) + (name + pdu) == h + (v + (g + (s + (c + (i + (name + pdu))))));
    }
  }

  /** What a variable answers to a query: its value, or one of the exception tags without content. */
  datatype Answer = Val(value: Value) | Exception(tag: byte)

  function AnswerTag(a: Answer): byte {
    if a.Val? then Tag(a.value) else a.tag
  }

  function AnswerOctets(a: Answer): Octets {
    if a.Val? then Content(a.value) else []
  }

  /**
   The lengths that enclose the PDU, the scoped PDU, the security parameters, their string, the global data and all.
   */
  datatype Lengths = Lengths(pdu: nat, scope: nat, para: nat, str: nat, global: nat, data: nat)

  /** All lengths are what they will have to be. */
  ghost predicate Sized(l: Lengths, m: Message) {
    && l.pdu == |PduContent(m.header, m.vars)| && l.data == |Body(m)|
    && (m.v3.Some? ==>
        && l.scope == |ScopedContent(m.v3.value, m)|
        && l.para == |SecurityContent(m.v3.value.security)| && l.str == Size(l.para)
        && l.global == |GlobalContent(m.v3.value.global)|)
  }

  /** The datagram being worked on: what was decoded, the bindings of the response, and the sums of lengths. */
  class Datagram {
    var version: Field
    var v3: Option<V3>
    var name: Octets
    var header: Header
    var vars: seq<VarBind>
    var varLens: seq<nat>
    var listLen: nat
    var lens: Lengths

    function Contents(): Message
      reads this
    {
      Message(version, v3, name, header, vars)
    }

    /** The sums over the bindings so far are the sizes of their encodings. */
    ghost predicate Accounted()
      reads this
    {
      && |varLens| == |vars| && listLen == |VarsOctets(vars)|
      && forall i :: 0 <= i < |vars| ==> varLens[i] == |VarContent(vars[i])|
    }

    constructor (m: Message)
      ensures Contents() == m.(vars := []) && Accounted()
    {
      version, v3, name, header := m.version, m.v3, m.name, m.header;
      vars, varLens, listLen := [], [], 0;
      lens := Lengths(0, 0, 0, 0, 0, 0);
    }

    /** Encode one answer and add its size to the sums. */
    method AddVar(oid: Oid, a: Answer)
      requires Accounted() && Fits32(oid) && |oid| <= OID_MAX_LEN && |OidOctets(oid)| < 256
      requires a.Val? ==> Storable(a.value) && (a.value.ObjectId? ==> |Content(a.value)| < 256)
      modifies this
      ensures Accounted()
      ensures Contents() == old(Contents()).(vars := old(vars) + [VarBind(oid, AnswerTag(a), AnswerOctets(a))])
    {
      hide VarsOctets, VarContent, VarOctets, AnswerOctets, OidOctets, Storable;
      var value := EncodeAnswer(a);
      var b := VarBind(oid, AnswerTag(a), value);
      var len, framed := VarLen(b);
      VarsSnoc(vars, b);
      listLen := listLen + framed;
      vars := vars + [b];
      varLens := varLens + [len];
    }

    /** The length pass. */
    method Measure()
      requires Accounted() && Fits(Answered(Contents()))
      modifies this
      ensures Accounted() && Contents() == Answered(old(Contents())) && Sized(lens, Contents())
    {
      hide VarsOctets, VarContent, Fits, Sized;
      FitsParts(Answered(Contents()));
      if version.v >= 3 {
        v3 := Some(AnsweredV3(v3.value));
      }
      lens := MeasureAll(Contents(), listLen);
    }

    /** Everything in front of the bindings, in a buffer that has exactly the room for all. */
    method Encode() returns (buf: array<byte>, next: nat)
      requires Accounted() && Fits(Answered(Contents()))
      modifies this
      ensures Accounted() && Contents() == Answered(old(Contents())) && Fits(Contents())
      ensures fresh(buf) && buf.Length == |MessageOctets(Contents())|
      ensures next <= buf.Length && buf[..next] + VarsOctets(vars) == MessageOctets(Contents())
    {
      hide VarsOctets, VarContent, Fits, MessageOctets, Body;
      Measure();
      ghost var m := Contents();
      Bounds(m);
      FitsParts(m);
      BodySizes(m);
      var size := Framed(lens.data);
      buf := new byte[size];
      MessageFromStart(m);
      hide Start, PduStart;
      next := PutStart(Contents(), lens, buf);
      next := PutString(TAG_OCTSTR, name, buf, next);
      next := PutPdu(header, vars, lens.pdu, listLen, buf, next);
    }

    /** The response: the cursor ends where the buffer does, and the buffer holds the message. */
    method Respond() returns (buf: array<byte>)
      requires Accounted() && Fits(Answered(Contents()))
      modifies this
      ensures Envelope(old(Contents()), Contents()) && header == old(header) && vars == old(vars)
      ensures fresh(buf) && buf[..] == MessageOctets(Contents())
      ensures NamesEncodable(vars) ==> MessageIn.Receive(buf[..]) == Ok(Contents())
    {
      hide VarsOctets, VarContent, MessageOctets, VarFits, NamesEncodable, Envelope;
      AnsweredIs(Contents());
      var next;
      buf, next := Encode();
      if NamesEncodable(vars) {
        MessageIn.MessageRoundTrip(Contents());
      }
      next := PutVars(vars, varLens, buf, next);
      assert buf[..] == buf[..next];
    }
  }

  /** Write all bindings. */
  method PutVars(vars: seq<VarBind>, varLens: seq<nat>, buf: array<byte>, at: nat) returns (next: nat)
    requires |varLens| == |vars| && forall i :: 0 <= i < |vars| ==>
      VarFits(vars[i]) && varLens[i] == |VarContent(vars[i])|
    requires at + |VarsOctets(vars)| <= buf.Length
    modifies buf
    ensures next == at + |VarsOctets(vars)| && buf[..next] == old(buf[..at]) + VarsOctets(vars)
  {
    hide VarContent, VarOctets, VarFits;
    next := at;
    for i := 0 to |vars|
      invariant next <= buf.Length && next + |VarsOctets(vars[i..])| == at + |VarsOctets(vars)|
      invariant buf[..next] + VarsOctets(vars[i..]) == old(buf[..at]) + VarsOctets(vars)
    {
      ghost var before := buf[..next];
      ghost var rest := vars[i + 1..];
      assert vars[i..][1..] == rest;
      assert before + (VarOctets(vars[i]) + VarsOctets(rest)) == before + VarOctets(vars[i]) + VarsOctets(rest);
      next := PutVar(vars[i], varLens[i], buf, next);
    }
  }

  /** Write everything in front of the name. */
  method PutStart(m: Message, l: Lengths, buf: array<byte>) returns (next: nat)
    requires Fits(m) && Sized(l, m) && |Start(m)| <= buf.Length
    modifies buf
    ensures next == |Start(m)| && buf[..next] == Start(m)
  {
    hide Fits, Head, FieldOctets, FieldFits, HeaderFits, Body, NamedPdu, PduContent, VarsOctets, ScopedContent;
    hide SecurityContent, GlobalContent, MessageOctets, Size, GlobalFits, SecurityFits, StartV3;
    Bounds(m);
    FitsParts(m);
    assert buf[..0] == [];
    next := PutHead(TAG_SEQ, l.data, buf, 0);
    assert buf[..next] == Head(TAG_SEQ, l.data);
    next := PutField(m.version, buf, next);
    if m.version.v >= 3 {
      next := PutV3(m.v3.value, l, l.scope, buf, next);
    }
  }

  method PutV3(x: V3, l: Lengths, scope: nat, buf: array<byte>, at: nat) returns (next: nat)
    requires GlobalFits(x.global) && SecurityFits(x.security) && |x.contextId| <= ENGINE_MAX && scope < ID_MODULUS
    requires l.para == |SecurityContent(x.security)| && l.str == Size(l.para) && l.global == |GlobalContent(x.global)|
    requires at + |StartV3(x, scope)| <= buf.Length
    modifies buf
    ensures next == at + |StartV3(x, scope)| && buf[..next] == old(buf[..at]) + StartV3(x, scope)
  {
    hide Head, FieldOctets, FieldFits, GlobalFits, SecurityFits, GlobalContent, SecurityContent, Tlv, Size;
    V3Small(x);
    TlvIsSize(TAG_SEQ, SecurityContent(x.security));
    ghost var p := buf[..at];
    ghost var g, k := GlobalOctets(x.global), Head(TAG_OCTSTR, l.str);
    ghost var s, c, i := Tlv(TAG_SEQ, SecurityContent(x.security)), Head(TAG_SEQ, scope), Tlv(TAG_OCTSTR, x.contextId);
    assert SecurityOctets(x.security) == k + s by { TlvIs(TAG_OCTSTR, s); }
    next := PutGlobal(x.global, l.global, buf, at);
    next := PutHead(TAG_OCTSTR, l.str, buf, next);
    next := PutSecurity(x.security, l.para, buf, next);
    next := PutHead(TAG_SEQ, scope, buf, next);
    next := PutString(TAG_OCTSTR, x.contextId, buf, next);
    assert p + g + k + s + c + i == p + (g + (k + s) + c + i);
  }

  lemma TlvIs(tag: byte, s: Octets)
    ensures Tlv(tag, s) == Head(tag, |s|) + s
  {
  }

  lemma V3Small(x: V3)
    requires GlobalFits(x.global) && SecurityFits(x.security)
    ensures |SecurityContent(x.security)| < 1000 && Size(|SecurityContent(x.security)|) < 1006
      && |GlobalContent(x.global)| < 1000
  {
    hide FieldOctets, SecurityContent, GlobalContent;
    IntRoundTrip(x.global.id.v);
    IntRoundTrip(x.global.maxSize.v);
    IntRoundTrip(x.global.model.v);
    IntRoundTrip(x.security.boots.v);
    IntRoundTrip(x.security.time.v);
    hide IntOctets;
    SecuritySizes(x.security);
    GlobalSizes(x.global);
  }

  /** Write one binding. */
  method PutVar(b: VarBind, len: nat, buf: array<byte>, at: nat) returns (next: nat)
    requires VarFits(b) && len == |VarContent(b)| && at + |VarOctets(b)| <= buf.Length
    modifies buf
    ensures next == at + |VarOctets(b)| && buf[..next] == old(buf[..at]) + VarOctets(b)
  {
    hide Head, OidOctets, Size;
    ghost var p := buf[..at];
    ghost var o := OidOctets(b.oid);
    ghost var h, k, v := Head(TAG_SEQ, len), Head(TAG_OBJID, |o|), Tlv(b.tag, b.value);
    VarSmall(b);
    next := PutHead(TAG_SEQ, len, buf, at);
    var oidLen := OidEncTry(b.oid);
    next := PutHead(TAG_OBJID, oidLen, buf, next);
    next := OidEnc(b.oid, buf, next);
    next := PutString(b.tag, b.value, buf, next);
    assert p + h + k + o + v == p + (h + ((k + o) + v));
  }

  lemma VarSmall(b: VarBind)
    requires |OidOctets(b.oid)| < 256 && |b.value| <= VALUE_MAX_LEN
    ensures |VarContent(b)| < ID_MODULUS
  {
    hide OidOctets, VarContent;
    VarSizes(b);
  }

  /** The sums that all versions share. */
  method MeasureNamed(m: Message, listLen: nat) returns (pduLen: nat, scopeLen: nat)
    requires Fits(m) && listLen == |VarsOctets(m.vars)|
    ensures pduLen == |PduContent(m.header, m.vars)| && scopeLen == |NamedPdu(m)| < ID_MODULUS
  {
    hide VarsOctets, PduContent, NamedPdu, PduOctets, Body, ScopedContent, Size, MessageOctets;
    Bounds(m);
    BodySizes(m);
    PduSizes(m.header, m.vars);
    pduLen := MeasurePdu(m.header, m.vars, listLen);
    scopeLen := Framed(pduLen);
    var n := Framed(|m.name|);
    scopeLen := scopeLen + n;
  }

  lemma FitsParts(m: Message)
    requires Fits(m)
    ensures m.v3.Some? <==> m.version.v >= 3
    ensures m.v3.Some? ==>
      && GlobalFits(m.v3.value.global) && SecurityFits(m.v3.value.security)
      && |m.v3.value.contextId| <= ENGINE_MAX
    ensures FieldFits(m.version) && m.version.size < 5 && HeaderFits(m.header) && |m.name| <= NAME_MAX
  {
    IntRoundTrip(m.version.v);
  }

  /** The sums of an answered message. */
  method MeasureAll(m: Message, listLen: nat) returns (l: Lengths)
    requires Fits(m) && listLen == |VarsOctets(m.vars)|
    ensures Sized(l, m)
  {
    hide Fits, VarsOctets, PduContent, SecurityContent, GlobalContent, Body, ScopedContent, NamedPdu, MessageOctets;
    hide SecurityOctets, GlobalOctets, GlobalFits, SecurityFits, HeaderFits, LengthOctets, Size, IntOctets;
    Bounds(m);
    FitsParts(m);
    BodySizes(m);
    var pduLen, scopeLen := MeasureNamed(m, listLen);
    var dataLen := 0;
    var paraLen, strLen, globalLen, n := 0, 0, 0, 0;
    if m.version.v >= 3 {
      var x := m.v3.value;
      n := Framed(|x.contextId|);
      scopeLen := scopeLen + n;
      paraLen, strLen, globalLen := MeasureV3(x);
      n := Framed(globalLen);
      dataLen := dataLen + n;
      n := Framed(strLen);
      dataLen := dataLen + n;
      n := LengthEncTry(scopeLen);
      SizeIs(scopeLen);
      dataLen := dataLen + 1 + n;
    }
    dataLen := dataLen + scopeLen;
    n := Framed(m.version.size);
    dataLen := dataLen + n;
    l := Lengths(pduLen, scopeLen, paraLen, strLen, globalLen, dataLen);
  }

  /** The sums over the parts of version 3. */
  method MeasureV3(x: V3) returns (paraLen: nat, strLen: nat, globalLen: nat)
    requires GlobalFits(x.global) && SecurityFits(x.security)
    ensures paraLen == |SecurityContent(x.security)| < 1000 && strLen == Size(paraLen) < 1006
      && |SecurityOctets(x.security)| == Size(strLen)
    ensures globalLen == |GlobalContent(x.global)| < 1000 && |GlobalOctets(x.global)| == Size(globalLen)
  {
    hide FieldOctets, SecurityContent, GlobalContent, SecurityOctets, GlobalOctets;
    var g, y := x.global, x.security;
    IntRoundTrip(g.id.v);
    IntRoundTrip(g.maxSize.v);
    IntRoundTrip(g.model.v);
    IntRoundTrip(y.boots.v);
    IntRoundTrip(y.time.v);
    hide IntOctets;
    paraLen := Framed(|y.engineId|);
    var n := Framed(y.boots.size);
    paraLen := paraLen + n;
    n := Framed(y.time.size);
    paraLen := paraLen + n;
    n := Framed(|y.user|);
    paraLen := paraLen + n;
    n := Framed(|y.auth|);
    paraLen := paraLen + n;
    n := Framed(|y.priv|);
    paraLen := paraLen + n;
    SecuritySizes(y);
    strLen := Framed(paraLen);
    globalLen := Framed(g.id.size);
    n := Framed(g.maxSize.size);
    globalLen := globalLen + n;
    n := Framed(|g.flags|);
    globalLen := globalLen + n;
    n := Framed(g.model.size);
    globalLen := globalLen + n;
    GlobalSizes(g);
  }

  /** The length of the PDU's content. */
  method MeasurePdu(h: Header, ghost bs: seq<VarBind>, listLen: nat) returns (pduLen: nat)
    requires HeaderFits(h) && listLen == |VarsOctets(bs)| < ID_MODULUS
    ensures pduLen == |PduContent(h, bs)|
  {
    hide FieldOctets, VarsOctets, PduContent;
    IntRoundTrip(h.reqId.v);
    IntRoundTrip(h.errStat.v);
    IntRoundTrip(h.errIdx.v);
    hide IntOctets;
    pduLen := Framed(listLen);
    var n := Framed(h.reqId.size);
    pduLen := pduLen + n;
    n := Framed(h.errStat.size);
    pduLen := pduLen + n;
    n := Framed(h.errIdx.size);
    pduLen := pduLen + n;
    PduSizes(h, bs);
  }

  /** Encode the value into a buffer of the predicted size. */
  method EncodeAnswer(a: Answer) returns (s: Octets)
    requires a.Val? ==> Storable(a.value) && (a.value.ObjectId? ==> |Content(a.value)| < 256)
    ensures s == AnswerOctets(a) && |s| <= VALUE_MAX_LEN
  {
    if a.Exception? {
      return [];
    }
    hide Content, Storable;
    ContentSize(a.value);
    var len := ValueEncTry(a.value);
    var buf := new byte[len];
    var next := ValueEnc(a.value, buf, 0);
    s := buf[..next];
  }

  lemma ContentSize(v: Value)
    requires Storable(v) && (v.ObjectId? ==> |Content(v)| < 256)
    ensures |Content(v)| <= VALUE_MAX_LEN
  {
    match v
    case Integer(i) => IntRoundTrip(i);
    case Counter(n) =>
      WrapWord(n);
      IntRoundTrip(Wrap(n));
    case Gauge(n) => IntRoundTrip(n);
    case TimeTicks(n) => IntRoundTrip(n);
    case OctetString(_) =>
    case IpAddress(_) =>
    case ObjectId(_) =>
  }

  /** The length of a binding, and its size with tag and length in front. */
  method VarLen(b: VarBind) returns (len: nat, framed: nat)
    requires Fits32(b.oid) && |b.oid| <= OID_MAX_LEN && |OidOctets(b.oid)| < 256 && |b.value| <= VALUE_MAX_LEN
    ensures len == |VarContent(b)| && framed == |VarOctets(b)|
  {
    hide OidOctets, VarContent, VarOctets;
    var oidLen := OidEncTry(b.oid);
    len := Framed(oidLen);
    var valueLen := Framed(|b.value|);
    len := len + valueLen;
    VarSizes(b);
    framed := Framed(len);
  }

  lemma {:induction false} VarsSnoc(bs: seq<VarBind>, b: VarBind)
    ensures VarsOctets(bs + [b]) == VarsOctets(bs) + VarOctets(b)
  {
    hide VarOctets;
    if bs == [] {
      assert bs + [b] == [b];
      assert VarsOctets([b]) == VarOctets(b) + VarsOctets([]);
    } else {
      VarsSnoc(bs[1..], b);
      assert (bs + [b])[1..] == bs[1..] + [b];
    }
  }

  /** One answer as a binding. */
  function Bound(q: (Oid, Answer)): VarBind {
    VarBind(q.0, AnswerTag(q.1), AnswerOctets(q.1))
  }

  function BoundAll(qs: seq<(Oid, Answer)>): (bs: seq<VarBind>)
    ensures |bs| == |qs| && forall i :: 0 <= i < |qs| ==> bs[i] == Bound(qs[i])
  {
    seq(|qs|, i requires 0 <= i < |qs| => Bound(qs[i]))
  }

  ghost predicate Answerable(q: (Oid, Answer)) {
    && Fits32(q.0) && |q.0| <= OID_MAX_LEN && Encodable(q.0) && |OidOctets(q.0)| < 256
    && (q.1.Val? ==>
        && Storable(q.1.value)
        && (q.1.value.ObjectId? ==> Encodable(q.1.value.id) && |Content(q.1.value)| < 256))
  }

  /** What the agent's own decoder reads from a binding is the answer. */
  ghost predicate Reads(b: VarBind, q: (Oid, Answer)) {
    && b.oid == q.0 && b.tag == AnswerTag(q.1)
    && if q.1.Val? then FromContent(b.tag, b.value) == Some(q.1.value) else b.value == []
  }

  /**
   The response to GET, GETNEXT and GETBULK: decoding what is sent gives every answer back, in order, and nothing
   else.
   */
  method Deliver(m: Message, qs: seq<(Oid, Answer)>) returns (buf: array<byte>)
    requires forall i :: 0 <= i < |qs| ==> Answerable(qs[i])
    requires Fits(Answered(m.(vars := BoundAll(qs))))
    ensures var r := MessageIn.Receive(buf[..]);
      && r.Ok? && Envelope(m, r.value) && r.value.header == m.header
      && |r.value.vars| == |qs| && forall i :: 0 <= i < |qs| ==> Reads(r.value.vars[i], qs[i])
  {
    hide Fits, MessageOctets, MessageIn.Receive, Bound, Reads, Encodable, OidOctets, Storable, Content, NamesEncodable;
    hide Envelope, Answered, AnswerTag, AnswerOctets, VarsOctets;
    var d := new Datagram(m);
    for i := 0 to |qs|
      invariant d.Accounted() && fresh(d)
      invariant d.Contents() == m.(vars := BoundAll(qs[..i]))
    {
      assert BoundAll(qs[..i + 1]) == BoundAll(qs[..i]) + [Bound(qs[i])];
      BoundIs(qs[i]);
      d.AddVar(qs[i].0, qs[i].1);
    }
    assert qs[..|qs|] == qs;
    NamesBound(qs);
    buf := d.Respond();
    SameEnvelope(m, d.Contents());
    forall i | 0 <= i < |qs|
      ensures Reads(Bound(qs[i]), qs[i])
    {
      BoundReads(qs[i]);
    }
  }

  /** The bindings do not matter. */
  lemma SameEnvelope(m: Message, r: Message)
    ensures forall bs :: Envelope(m.(vars := bs), r) <==> Envelope(m, r)
  {
  }

  lemma NamesBound(qs: seq<(Oid, Answer)>)
    requires forall i :: 0 <= i < |qs| ==> Answerable(qs[i])
    ensures NamesEncodable(BoundAll(qs))
  {
  }

  lemma BoundIs(q: (Oid, Answer))
    ensures Bound(q) == VarBind(q.0, AnswerTag(q.1), AnswerOctets(q.1))
  {
  }

  lemma BoundReads(q: (Oid, Answer))
    requires Answerable(q)
    ensures Reads(Bound(q), q)
  {
    if q.1.Val? {
      ValueRoundTrip(q.1.value);
    }
  }
}
