/**
 Decoding of received messages. The cursor is the part of the buffer still to be read; `Undefined` stands for what
 the decoder leaves to chance: reading past the buffer, or filling in the sign of a number of more than four octets.
 */
module MessageIn {
  import opened Oids
  import opened Asn1
  import opened Ber
  import opened BerOid
  import opened BerValue
  import opened Message
  import opened Parsing

  datatype Error =
    | PduType | PduLength | Version
    | GlobalData | GlobalId | GlobalSize | GlobalFlags | GlobalModel
    | SecurityString | SecuritySequence | EngineId | EngineIdLength | EngineBoots | EngineTime
    | UserName | UserNameLength | AuthPara | AuthParaLength | PrivParaLength
    | ScopedPdu | ContextId | ContextIdLength | ContextName | ContextNameLength
    | RequestId | ErrorStatus | ErrorIndex
    | VarListSequence | VarSequence | VarOid | VarOidLength | VarValueLength
    | Undefined

  function TakeTag(s: Octets, tag: byte, e: Error): (r: Result<Octets, Error>)
    ensures r.Ok? ==> |r.value| < |s|
  {
    if s == [] then Err(Undefined) else if s[0] != tag then Err(e) else Ok(s[1..])
  }

  function TakeLength(s: Octets): (r: Result<Parsed<nat>, Error>)
    ensures r.Ok? ==> |r.value.rest| < |s|
  {
    if s == [] || LengthSize(s[0]) > |s| then Err(Undefined)
    else Ok(Parsed(LengthValue(s), s[LengthSize(s[0])..]))
  }

  function TakeOctets(s: Octets, n: nat): Result<Parsed<Octets>, Error> {
    if n > |s| then Err(Undefined) else Ok(Parsed(s[..n], s[n..]))
  }

  /** The value of an integer's content octets; without any it keeps the zero it was cleared to. */
  function IntContent(s: Octets): Result<int, Error> {
    if s == [] then Ok(0)
    else if s[0] >= 128 && |s| > 4 then Err(Undefined)
    else Ok(Wrap(Signed(s)))
  }

  function TakeField(s: Octets, e: Error): Result<Parsed<Field>, Error> {
    var s1 :- TakeTag(s, TAG_INT, e);
    var n :- TakeLength(s1);
    var c :- TakeOctets(n.rest, n.value);
    var v :- IntContent(c.value);
    Ok(Parsed(Field(v, n.value), c.rest))
  }

  /** A string for a buffer of `max` octets and a terminator, the room being checked in 32 bits. */
  function TakeString(s: Octets, max: nat, e: Error, tooLong: Error): Result<Parsed<Octets>, Error> {
    var s1 :- TakeTag(s, TAG_OCTSTR, e);
    var n :- TakeLength(s1);
    if (n.value + 1) % ID_MODULUS > max + 1 then Err(tooLong) else TakeOctets(n.rest, n.value)
  }

  /** The flags have room for one octet, which is not checked. */
  function TakeFlags(s: Octets): Result<Parsed<Octets>, Error> {
    var s1 :- TakeTag(s, TAG_OCTSTR, GlobalFlags);
    var n :- TakeLength(s1);
    if n.value > 1 then Err(Undefined) else TakeOctets(n.rest, n.value)
  }

  function TakeGlobal(s: Octets): Result<Parsed<Global>, Error> {
    var id :- TakeField(s, GlobalId);
    var maxSize :- TakeField(id.rest, GlobalSize);
    var flags :- TakeFlags(maxSize.rest);
    var model :- TakeField(flags.rest, GlobalModel);
    Ok(Parsed(Global(id.value, maxSize.value, flags.value, model.value), model.rest))
  }

  function TakeSecurity(s: Octets): Result<Parsed<Security>, Error> {
    var s1 :- TakeTag(s, TAG_OCTSTR, SecurityString);
    var n1 :- TakeLength(s1);
    var s2 :- TakeTag(n1.rest, TAG_SEQ, SecuritySequence);
    var n2 :- TakeLength(s2);
    TakeSecurityContent(n2.rest)
  }

  function TakeSecurityContent(s: Octets): Result<Parsed<Security>, Error> {
    var engine :- TakeString(s, ENGINE_MAX, EngineId, EngineIdLength);
    var boots :- TakeField(engine.rest, EngineBoots);
    var time :- TakeField(boots.rest, EngineTime);
    var user :- TakeString(time.rest, NAME_MAX, UserName, UserNameLength);
    var auth :- TakeString(user.rest, NAME_MAX, AuthPara, AuthParaLength);
    var priv :- TakeString(auth.rest, NAME_MAX, EngineTime, PrivParaLength);
    Ok(Parsed(Security(engine.value, boots.value, time.value, user.value, auth.value, priv.value), priv.rest))
  }

  function TakeV3(s: Octets): Result<Parsed<V3>, Error> {
    var s1 :- TakeTag(s, TAG_SEQ, GlobalData);
    var n1 :- TakeLength(s1);
    var global :- TakeGlobal(n1.rest);
    var security :- TakeSecurity(global.rest);
    var s2 :- TakeTag(security.rest, TAG_SEQ, ScopedPdu);
    var n2 :- TakeLength(s2);
    var context :- TakeString(n2.rest, ENGINE_MAX, ContextId, ContextIdLength);
    Ok(Parsed(V3(global.value, security.value, context.value), context.rest))
  }

  function TakeHeader(s: Octets): Result<Parsed<Header>, Error> {
    if s == [] then Err(Undefined)
    else
      var n :- TakeLength(s[1..]);
      var reqId :- TakeField(n.rest, RequestId);
      var errStat :- TakeField(reqId.rest, ErrorStatus);
      var errIdx :- TakeField(errStat.rest, ErrorIndex);
      Ok(Parsed(Header(s[0], reqId.value, errStat.value, errIdx.value), errIdx.rest))
  }

  /** One binding, from the octets behind its own length. */
  function VarAt(s: Octets): Result<VarBind, Error> {
    var s1 :- TakeTag(s, TAG_OBJID, VarOid);
    var n1 :- TakeLength(s1);
    var oid :- TakeOctets(n1.rest, n1.value);
    if |OidContent(oid.value)| > OID_MAX_LEN then Err(VarOidLength)
    else if oid.rest == [] then Err(Undefined)
    else
      var n2 :- TakeLength(oid.rest[1..]);
      if n2.value > VALUE_MAX_LEN then Err(VarValueLength)
      else
        var value :- TakeOctets(n2.rest, n2.value);
        Ok(VarBind(OidContent(oid.value), oid.rest[0], value.value))
  }

  /** One round of the loop over the bindings: the binding, the octets behind it and how many of the list are left. */
  function TakeVar(s: Octets, left: nat): (r: Result<(VarBind, Octets, nat), Error>)
    ensures r.Ok? ==> |r.value.1| < |s|
  {
    var s1 :- TakeTag(s, TAG_SEQ, VarSequence);
    var n :- TakeLength(s1);
    var b :- VarAt(n.rest);
    var skipped :- TakeOctets(n.rest, n.value);
    Ok((b, skipped.rest, (left - (|s| - |skipped.rest|)) % ID_MODULUS))
  }

  function TakeVars(s: Octets, left: nat): Result<seq<VarBind>, Error>
    decreases |s|
  {
    if left == 0 then Ok([])
    else
      var t :- TakeVar(s, left);
      var more :- TakeVars(t.1, t.2);
      Ok([t.0] + more)
  }

  /** The decoding loop of the bindings. */
  method ParseVars(s: Octets, n: nat) returns (r: Result<seq<VarBind>, Error>)
    ensures r == TakeVars(s, n)
  {
    hide TakeVar, TakeVars, Ahead;
    var rest, left, list := s, n, [];
    AheadOfNone(TakeVars(s, n));
    while left > 0
      invariant TakeVars(s, n) == Ahead(list, TakeVars(rest, left))
      decreases |rest|
    {
      var t := TakeVar(rest, left);
      OneVarAhead(list, rest, left);
      if t.Err? {
        return Err(t.error);
      }
      list, rest, left := list + [t.value.0], t.value.1, t.value.2;
    }
    NoVarsAhead(list, rest);
    return Ok(list);
  }

  /** The bindings read so far, in front of what is still to be read. */
  function Ahead(list: seq<VarBind>, r: Result<seq<VarBind>, Error>): Result<seq<VarBind>, Error> {
    if r.Ok? then Ok(list + r.value) else r
  }

  lemma AheadOfNone(r: Result<seq<VarBind>, Error>)
    ensures Ahead([], r) == r
  {
    assert r.Ok? ==> [] + r.value == r.value;
  }

  lemma OneVarAhead(list: seq<VarBind>, s: Octets, left: nat)
    requires left > 0
    ensures var t := TakeVar(s, left);
      Ahead(list, TakeVars(s, left)) ==
      if t.Err? then Err(t.error) else Ahead(list + [t.value.0], TakeVars(t.value.1, t.value.2))
  {
    hide TakeVar;
    var t := TakeVar(s, left);
    if t.Ok? {
      var more := TakeVars(t.value.1, t.value.2);
      assert more.Ok? ==> list + ([t.value.0] + more.value) == list + [t.value.0] + more.value;
    }
  }

  lemma NoVarsAhead(list: seq<VarBind>, s: Octets)
    ensures Ahead(list, TakeVars(s, 0)) == Ok(list)
  {
    assert list + [] == list;
  }

  /** The part that all versions share: the name and the request itself. */
  function TakeNamed(s: Octets): Result<(Octets, Header, seq<VarBind>), Error> {
    var name :- TakeString(s, NAME_MAX, ContextName, ContextNameLength);
    var header :- TakeHeader(name.rest);
    var s1 :- TakeTag(header.rest, TAG_SEQ, VarListSequence);
    var n :- TakeLength(s1);
    var vars :- TakeVars(n.rest, n.value);
    Ok((name.value, header.value, vars))
  }

  /** Everything behind the first length. */
  function TakeBody(s: Octets): Result<Message, Error> {
    var version :- TakeField(s, Version);
    var v3 :- if version.value.v >= 3 then
        (var x :- TakeV3(version.rest); Ok(Parsed(Some(x.value), x.rest)))
      else Ok(Parsed(None, version.rest));
    var named :- TakeNamed(v3.rest);
    Ok(Message(version.value, v3.value, named.0, named.1, named.2))
  }

  /** A datagram is taken when it is a sequence of exactly its own length. */
  function Receive(s: Octets): Result<Message, Error> {
    var s1 :- TakeTag(s, TAG_SEQ, PduType);
    var n :- TakeLength(s1);
    if (|s| - |n.rest| + n.value) % ID_MODULUS != |s| then Err(PduLength)
    else TakeBody(n.rest)
  }

  // ---------- Each part comes back from its octets, whatever follows

  lemma HeadRoundTrip(tag: byte, n: nat, rest: Octets, e: Error)
    requires n < ID_MODULUS
    ensures TakeTag(Head(tag, n) + rest, tag, e) == Ok(LengthOctets(n) + rest)
    ensures (Head(tag, n) + rest)[0] == tag && (Head(tag, n) + rest)[1..] == LengthOctets(n) + rest
    ensures TakeLength(LengthOctets(n) + rest) == Ok(Parsed(n, rest))
  {
    hide LengthOctets, LengthValue, LengthSize;
    LengthRoundTrip(n, rest);
    assert Head(tag, n) + rest == [tag] + (LengthOctets(n) + rest);
  }

  lemma TlvRoundTrip(tag: byte, s: Octets, rest: Octets, e: Error)
    requires |s| < ID_MODULUS
    ensures Tlv(tag, s) + rest == Head(tag, |s|) + (s + rest)
    ensures TakeTag(Tlv(tag, s) + rest, tag, e) == Ok(LengthOctets(|s|) + (s + rest))
    ensures (Tlv(tag, s) + rest)[0] == tag && (Tlv(tag, s) + rest)[1..] == LengthOctets(|s|) + (s + rest)
    ensures TakeLength(LengthOctets(|s|) + (s + rest)) == Ok(Parsed(|s|, s + rest))
    ensures TakeOctets(s + rest, |s|) == Ok(Parsed(s, rest))
  {
    assert Tlv(tag, s) + rest == Head(tag, |s|) + (s + rest);
    HeadRoundTrip(tag, |s|, s + rest, e);
  }

  lemma FieldRoundTrip(f: Field, rest: Octets, e: Error)
    requires FieldFits(f)
    ensures TakeField(FieldOctets(f) + rest, e) == Ok(Parsed(f, rest))
  {
    IntRoundTrip(f.v);
    SignOctet(f.v);
    TlvRoundTrip(TAG_INT, IntOctets(f.v), rest, e);
  }

  /** An integer comes back with the cursor behind it exactly when the stored size is the size of the value. */
  lemma FieldComesBack(f: Field, rest: Octets, e: Error)
    requires Int32(f.v) && f.size < ID_MODULUS
    ensures TakeField(FieldOctets(f) + rest, e) == Ok(Parsed(f, rest)) <==> f.size == |IntOctets(f.v)|
  {
    hide IntOctets, LengthOctets, LengthValue, LengthSize, Head, Signed, Wrap;
    var s := IntOctets(f.v) + rest;
    if f.size == |IntOctets(f.v)| {
      FieldRoundTrip(f, rest, e);
    } else {
      assert FieldOctets(f) + rest == Head(TAG_INT, f.size) + s;
      HeadRoundTrip(TAG_INT, f.size, s, e);
      assert f.size <= |s| ==> |s[f.size..]| != |rest|;
    }
  }

  /** GETBULK clears the error index but keeps the size of the repeat count that came in its place. */
  lemma BulkIndexMisfit(repeat: int, rest: Octets)
    requires Int32(repeat) && repeat >= 128
    ensures var f := Field(0, |IntOctets(repeat)|);
      TakeField(FieldOctets(f) + rest, ErrorIndex) != Ok(Parsed(f, rest))
  {
    IntRoundTrip(repeat);
    assert |IntOctets(repeat)| > 1 by {
      SignOctet(repeat / 256);
    }
    FieldComesBack(Field(0, |IntOctets(repeat)|), rest, ErrorIndex);
  }

  lemma StringRoundTrip(s: Octets, max: nat, rest: Octets, e: Error, tooLong: Error)
    requires |s| <= max < 1000
    ensures TakeString(Tlv(TAG_OCTSTR, s) + rest, max, e, tooLong) == Ok(Parsed(s, rest))
  {
    TlvRoundTrip(TAG_OCTSTR, s, rest, e);
  }

  lemma GlobalRoundTrip(g: Global, rest: Octets)
    requires GlobalFits(g)
    ensures TakeTag(GlobalOctets(g) + rest, TAG_SEQ, GlobalData).Ok?
    ensures var s1 := TakeTag(GlobalOctets(g) + rest, TAG_SEQ, GlobalData).value;
      TakeLength(s1).Ok? && TakeGlobal(TakeLength(s1).value.rest) == Ok(Parsed(g, rest))
  {
    hide Tlv, FieldOctets, TakeTag, TakeLength, TakeOctets, TakeField;
    var a, b, c, d := FieldOctets(g.id), FieldOctets(g.maxSize), Tlv(TAG_OCTSTR, g.flags), FieldOctets(g.model);
    var content := a + (b + (c + d));
    assert |content| < ID_MODULUS by {
      FieldSize(g.id);
      FieldSize(g.maxSize);
      FieldSize(g.model);
      TlvSize(TAG_OCTSTR, g.flags);
    }
    TlvRoundTrip(TAG_SEQ, content, rest, GlobalData);
    FieldRoundTrip(g.id, b + (c + (d + rest)), GlobalId);
    FieldRoundTrip(g.maxSize, c + (d + rest), GlobalSize);
    TlvRoundTrip(TAG_OCTSTR, g.flags, d + rest, GlobalFlags);
    FieldRoundTrip(g.model, rest, GlobalModel);
    assert content + rest == a + (b + (c + (d + rest)));
  }

  lemma TlvSize(tag: byte, s: Octets)
    ensures |s| + 2 <= |Tlv(tag, s)| <= |s| + 6
  {
  }

  lemma FieldSize(f: Field)
    requires FieldFits(f)
    ensures 0 < |FieldOctets(f)| <= 10
  {
    IntRoundTrip(f.v);
  }

  lemma SecurityRoundTrip(x: Security, rest: Octets)
    requires SecurityFits(x)
    ensures TakeSecurity(SecurityOctets(x) + rest) == Ok(Parsed(x, rest))
  {
    var content := SecurityContent(x);
    SecurityContentSize(x);
    hide Tlv, TakeTag, TakeLength, TakeSecurityContent, SecurityContent;
    TlvSize(TAG_SEQ, content);
    TlvRoundTrip(TAG_OCTSTR, Tlv(TAG_SEQ, content), rest, SecurityString);
    TlvRoundTrip(TAG_SEQ, content, rest, SecuritySequence);
    SecurityContentRoundTrip(x, rest);
  }

  lemma SecurityContentSize(x: Security)
    requires SecurityFits(x)
    ensures |SecurityContent(x)| < 1000
  {
    hide Tlv, FieldOctets;
    FieldSize(x.boots);
    FieldSize(x.time);
    TlvSize(TAG_OCTSTR, x.engineId);
    TlvSize(TAG_OCTSTR, x.user);
    TlvSize(TAG_OCTSTR, x.auth);
    TlvSize(TAG_OCTSTR, x.priv);
  }

  lemma SecurityContentRoundTrip(x: Security, rest: Octets)
    requires SecurityFits(x)
    ensures TakeSecurityContent(SecurityContent(x) + rest) == Ok(Parsed(x, rest))
  {
    hide Tlv, FieldOctets, TakeField, TakeString;
    var a, b, c := Tlv(TAG_OCTSTR, x.engineId), FieldOctets(x.boots), FieldOctets(x.time);
    var d, e, f := Tlv(TAG_OCTSTR, x.user), Tlv(TAG_OCTSTR, x.auth), Tlv(TAG_OCTSTR, x.priv);
    var r5 := f + rest;
    var r4 := e + r5;
    var r3 := d + r4;
    var r2 := c + r3;
    var r1 := b + r2;
    StringRoundTrip(x.engineId, ENGINE_MAX, r1, EngineId, EngineIdLength);
    FieldRoundTrip(x.boots, r2, EngineBoots);
    FieldRoundTrip(x.time, r3, EngineTime);
    StringRoundTrip(x.user, NAME_MAX, r4, UserName, UserNameLength);
    StringRoundTrip(x.auth, NAME_MAX, r5, AuthPara, AuthParaLength);
    StringRoundTrip(x.priv, NAME_MAX, rest, EngineTime, PrivParaLength);
    assert SecurityContent(x) + rest == a + r1;
  }

  lemma HeaderRoundTrip(h: Header, n: nat, rest: Octets)
    requires HeaderFits(h) && n < ID_MODULUS
    ensures TakeHeader(
           Head(h.kind, n) + (FieldOctets(h.reqId) + (FieldOctets(h.errStat) + (FieldOctets(h.errIdx) + rest))))
         == Ok(Parsed(h, rest))
  {
    hide Head, FieldOctets, TakeLength, TakeField;
    var a, b, c := FieldOctets(h.reqId), FieldOctets(h.errStat), FieldOctets(h.errIdx);
    HeadRoundTrip(h.kind, n, a + (b + (c + rest)), PduType);
    FieldRoundTrip(h.reqId, b + (c + rest), RequestId);
    FieldRoundTrip(h.errStat, c + rest, ErrorStatus);
    FieldRoundTrip(h.errIdx, rest, ErrorIndex);
  }

  lemma VarRoundTrip(b: VarBind, rest: Octets, left: nat)
    requires VarFits(b) && Encodable(b.oid) && |VarOctets(b)| <= left < ID_MODULUS
    ensures TakeVar(VarOctets(b) + rest, left) == Ok((b, rest, left - |VarOctets(b)|))
  {
    hide Tlv, TakeTag, TakeLength, TakeOctets, OidContent, OidOctets, LengthOctets, Head, Encodable, Fits32;
    var o, v := Tlv(TAG_OBJID, OidOctets(b.oid)), Tlv(b.tag, b.value);
    TlvSize(TAG_OBJID, OidOctets(b.oid));
    TlvSize(b.tag, b.value);
    TlvRoundTrip(TAG_SEQ, o + v, rest, VarSequence);
    assert (o + v) + rest == o + (v + rest);
    TlvRoundTrip(TAG_OBJID, OidOctets(b.oid), v + rest, VarOid);
    TlvRoundTrip(b.tag, b.value, rest, VarOid);
    OidRoundTrip(b.oid);
    assert |VarOctets(b) + rest| - |rest| == |VarOctets(b)|;
  }

  lemma {:induction false} VarsRoundTrip(bs: seq<VarBind>, rest: Octets)
    requires (forall i :: 0 <= i < |bs| ==> VarFits(bs[i])) && NamesEncodable(bs) && |VarsOctets(bs)| < ID_MODULUS
    ensures TakeVars(VarsOctets(bs) + rest, |VarsOctets(bs)|) == Ok(bs)
  {
    hide VarOctets, TakeVar, VarFits;
    if bs != [] {
      var b, more := bs[0], bs[1..];
      assert VarsOctets(bs) + rest == VarOctets(b) + (VarsOctets(more) + rest);
      VarRoundTrip(b, VarsOctets(more) + rest, |VarsOctets(bs)|);
      VarsRoundTrip(more, rest);
      assert |VarOctets(b)| > 0 by { VarSize(b); }
      assert bs == [b] + more;
    }
  }

  lemma VarSize(b: VarBind)
    ensures |VarOctets(b)| > 0
  {
  }

  lemma NamedPduRoundTrip(m: Message)
    requires HeaderFits(m.header) && |m.name| <= NAME_MAX
    requires (forall i :: 0 <= i < |m.vars| ==> VarFits(m.vars[i])) && NamesEncodable(m.vars)
    requires |NamedPdu(m)| < ID_MODULUS
    ensures TakeNamed(NamedPdu(m)) == Ok((m.name, m.header, m.vars))
  {
    hide Tlv, FieldOctets, TakeTag, TakeLength, TakeString, TakeHeader, TakeVars, VarsOctets, VarFits;
    var h, list := m.header, VarsOctets(m.vars);
    var a, b, c, d := FieldOctets(h.reqId), FieldOctets(h.errStat), FieldOctets(h.errIdx), Tlv(TAG_SEQ, list);
    var content := a + (b + (c + d));
    TlvSize(h.kind, content);
    TlvSize(TAG_SEQ, list);
    TlvRoundTrip(h.kind, content, [], PduType);
    assert PduOctets(h, m.vars) + [] == PduOctets(h, m.vars) && content + [] == content;
    StringRoundTrip(m.name, NAME_MAX, PduOctets(h, m.vars), ContextName, ContextNameLength);
    HeaderRoundTrip(h, |content|, d);
    TlvRoundTrip(TAG_SEQ, list, [], VarListSequence);
    assert d + [] == d && list + [] == list;
    VarsRoundTrip(m.vars, []);
  }

  lemma V3RoundTrip(x: V3, pdu: Octets)
    requires GlobalFits(x.global) && SecurityFits(x.security) && |x.contextId| <= ENGINE_MAX
    requires |Tlv(TAG_OCTSTR, x.contextId) + pdu| < ID_MODULUS
    ensures TakeV3(
           GlobalOctets(x.global) + (SecurityOctets(x.security) + Tlv(TAG_SEQ, Tlv(TAG_OCTSTR, x.contextId) + pdu)))
         == Ok(Parsed(x, pdu))
  {
    hide Tlv, GlobalOctets, SecurityOctets, TakeTag, TakeLength, TakeString, TakeGlobal, TakeSecurity, GlobalFits;
    hide SecurityFits;
    var id := Tlv(TAG_OCTSTR, x.contextId);
    var scoped := Tlv(TAG_SEQ, id + pdu);
    GlobalRoundTrip(x.global, SecurityOctets(x.security) + scoped);
    SecurityRoundTrip(x.security, scoped);
    TlvRoundTrip(TAG_SEQ, id + pdu, [], ScopedPdu);
    assert scoped + [] == scoped && (id + pdu) + [] == id + pdu;
    StringRoundTrip(x.contextId, ENGINE_MAX, pdu, ContextId, ContextIdLength);
  }

  lemma BodyRoundTrip(m: Message)
    requires Fits(m) && NamesEncodable(m.vars)
    ensures TakeBody(Body(m)) == Ok(m)
  {
    hide Tlv, FieldOctets, NamedPdu, GlobalOctets, SecurityOctets, TakeNamed, TakeField, TakeV3;
    TlvSize(TAG_SEQ, Body(m));
    match m.v3 {
      case None =>
        FieldRoundTrip(m.version, NamedPdu(m), Version);
      case Some(x) =>
        var scoped := Tlv(TAG_OCTSTR, x.contextId) + NamedPdu(m);
        TlvSize(TAG_SEQ, scoped);
        FieldRoundTrip(m.version, GlobalOctets(x.global) + (SecurityOctets(x.security) + Tlv(TAG_SEQ, scoped)),
          Version);
        V3RoundTrip(x, NamedPdu(m));
    }
    NamedPduRoundTrip(m);
  }

  /** A message comes back from its octets. */
  lemma MessageRoundTrip(m: Message)
    requires Fits(m) && NamesEncodable(m.vars)
    ensures Receive(MessageOctets(m)) == Ok(m)
  {
    hide Tlv, TakeTag, TakeLength, TakeBody, Body;
    TlvSize(TAG_SEQ, Body(m));
    TlvRoundTrip(TAG_SEQ, Body(m), [], PduType);
    assert MessageOctets(m) + [] == MessageOctets(m) && Body(m) + [] == Body(m);
    BodyRoundTrip(m);
  }

  // ---------- What any decoded message keeps to

  /** An OID the decoder lets through. */
  ghost predicate Received(o: Oid) {
    Fits32(o) && |o| <= OID_MAX_LEN && Encodable(o)
  }

  lemma {:induction false} ReadFits(s: Octets)
    ensures Fits32(Read(s).ids) && Read(s).id < ID_MODULUS
  {
    if s != [] {
      ReadFits(s[..|s| - 1]);
    }
  }

  lemma ContentReceived(s: Octets)
    requires |OidContent(s)| <= OID_MAX_LEN
    ensures Received(OidContent(s))
  {
    if s != [] {
      ReadFits(s[1..]);
    }
  }

  lemma VarReceived(s: Octets)
    ensures VarAt(s).Ok? ==> Received(VarAt(s).value.oid)
  {
    hide Received, OidContent, TakeLength, TakeOctets;
    var s1 := TakeTag(s, TAG_OBJID, VarOid);
    if s1.Ok? && TakeLength(s1.value).Ok? {
      var n := TakeLength(s1.value).value;
      var oid := TakeOctets(n.rest, n.value);
      if oid.Ok? && |OidContent(oid.value.value)| <= OID_MAX_LEN {
        ContentReceived(oid.value.value);
      }
    }
  }

  lemma {:induction false} VarsReceived(s: Octets, left: nat)
    ensures TakeVars(s, left).Ok? ==> forall i :: 0 <= i < |TakeVars(s, left).value| ==>
      Received(TakeVars(s, left).value[i].oid)
    decreases |s|
  {
    hide Received, VarAt;
    if left > 0 && TakeVar(s, left).Ok? {
      var t := TakeVar(s, left).value;
      VarsReceived(t.1, t.2);
      var n := TakeLength(s[1..]).value;
      VarReceived(n.rest);
    }
  }

  /** Whatever octets are received, the OIDs in a message are of 32-bit sub-ids, at most 64, and can be sent back. */
  lemma MessageReceived(s: Octets)
    ensures Receive(s).Ok? ==> forall i :: 0 <= i < |Receive(s).value.vars| ==> Received(Receive(s).value.vars[i].oid)
  {
    hide Received, TakeVars, TakeString, TakeHeader, TakeV3, TakeField;
    if Receive(s).Ok? {
      var version := TakeField(TakeLength(s[1..]).value.rest, Version).value;
      NamedReceived(if version.value.v >= 3 then TakeV3(version.rest).value.rest else version.rest);
    }
  }

  lemma NamedReceived(s: Octets)
    ensures TakeNamed(s).Ok? ==> forall i :: 0 <= i < |TakeNamed(s).value.2| ==> Received(TakeNamed(s).value.2[i].oid)
  {
    hide Received, TakeVars, TakeString, TakeHeader, TakeLength;
    if TakeNamed(s).Ok? {
      var name := TakeString(s, NAME_MAX, ContextName, ContextNameLength).value;
      var header := TakeHeader(name.rest).value;
      var n := TakeLength(TakeTag(header.rest, TAG_SEQ, VarListSequence).value).value;
      VarsReceived(n.rest, n.value);
    }
  }

  /** The strings of a message fit the buffers that are there for them, and its integers the variables. */
  ghost predicate Limited(m: Message) {
    && Int32(m.version.v) && |m.name| <= 40 && HeaderLimited(m.header)
    && (forall i :: 0 <= i < |m.vars| ==> |m.vars[i].value| <= 1024)
    && (m.v3.Some? <==> m.version.v >= 3) && (m.v3.Some? ==> V3Limited(m.v3.value))
  }

  ghost predicate HeaderLimited(h: Header) {
    Int32(h.reqId.v) && Int32(h.errStat.v) && Int32(h.errIdx.v)
  }

  ghost predicate V3Limited(x: V3) {
    && GlobalLimited(x.global) && SecurityLimited(x.security) && |x.contextId| <= 32
  }

  ghost predicate GlobalLimited(g: Global) {
    Int32(g.id.v) && Int32(g.maxSize.v) && |g.flags| <= 1 && Int32(g.model.v)
  }

  ghost predicate SecurityLimited(x: Security) {
    && |x.engineId| <= 32 && Int32(x.boots.v) && Int32(x.time.v)
    && |x.user| <= 40 && |x.auth| <= 40 && |x.priv| <= 40
  }

  lemma FieldLimit(s: Octets, e: Error)
    ensures var r := TakeField(s, e); r.Ok? ==> |r.value.rest| <= |s| && Int32(r.value.value.v)
  {
    hide Signed, LengthValue;
  }

  /** The test for the room wraps around for a length of 2^32 - 1 only, and no datagram is that long. */
  lemma StringLimit(s: Octets, max: nat, e: Error, tooLong: Error)
    requires |s| < ID_MODULUS && max < 1000
    ensures var r := TakeString(s, max, e, tooLong); r.Ok? ==> |r.value.rest| <= |s| && |r.value.value| <= max
  {
    hide Num;
  }

  lemma GlobalLimit(s: Octets)
    ensures var r := TakeGlobal(s); r.Ok? ==> |r.value.rest| <= |s| && GlobalLimited(r.value.value)
  {
    hide TakeField, TakeFlags;
    FieldLimit(s, GlobalId);
    if TakeGlobal(s).Ok? {
      var id := TakeField(s, GlobalId).value;
      FieldLimit(id.rest, GlobalSize);
      var size := TakeField(id.rest, GlobalSize).value;
      FlagsLimit(size.rest);
      FieldLimit(TakeFlags(size.rest).value.rest, GlobalModel);
    }
  }

  lemma FlagsLimit(s: Octets)
    ensures var r := TakeFlags(s); r.Ok? ==> |r.value.rest| <= |s| && |r.value.value| <= 1
  {
    hide LengthValue;
  }

  lemma SecurityLimit(s: Octets)
    requires |s| < ID_MODULUS
    ensures var r := TakeSecurityContent(s); r.Ok? ==> |r.value.rest| <= |s| && SecurityLimited(r.value.value)
  {
    hide TakeField, TakeString;
    if TakeSecurityContent(s).Ok? {
      StringLimit(s, ENGINE_MAX, EngineId, EngineIdLength);
      var engine := TakeString(s, ENGINE_MAX, EngineId, EngineIdLength).value;
      FieldLimit(engine.rest, EngineBoots);
      var boots := TakeField(engine.rest, EngineBoots).value;
      FieldLimit(boots.rest, EngineTime);
      var time := TakeField(boots.rest, EngineTime).value;
      StringLimit(time.rest, NAME_MAX, UserName, UserNameLength);
      var user := TakeString(time.rest, NAME_MAX, UserName, UserNameLength).value;
      StringLimit(user.rest, NAME_MAX, AuthPara, AuthParaLength);
      var auth := TakeString(user.rest, NAME_MAX, AuthPara, AuthParaLength).value;
      StringLimit(auth.rest, NAME_MAX, EngineTime, PrivParaLength);
    }
  }

  lemma V3Limit(s: Octets)
    requires |s| < ID_MODULUS
    ensures var r := TakeV3(s); r.Ok? ==> |r.value.rest| <= |s| && V3Limited(r.value.value)
  {
    hide TakeGlobal, TakeSecurityContent, TakeString, TakeLength, GlobalLimited, SecurityLimited;
    if TakeV3(s).Ok? {
      var n1 := TakeLength(s[1..]).value;
      GlobalLimit(n1.rest);
      var global := TakeGlobal(n1.rest).value;
      var k1 := TakeLength(global.rest[1..]).value;
      var k2 := TakeLength(k1.rest[1..]).value;
      SecurityLimit(k2.rest);
      var security := TakeSecurityContent(k2.rest).value;
      var n2 := TakeLength(security.rest[1..]).value;
      StringLimit(n2.rest, ENGINE_MAX, ContextId, ContextIdLength);
    }
  }

  lemma HeaderLimit(s: Octets)
    ensures TakeHeader(s).Ok? ==> HeaderLimited(TakeHeader(s).value.value)
  {
    hide TakeField;
    if TakeHeader(s).Ok? {
      var n := TakeLength(s[1..]).value;
      FieldLimit(n.rest, RequestId);
      var reqId := TakeField(n.rest, RequestId).value;
      FieldLimit(reqId.rest, ErrorStatus);
      FieldLimit(TakeField(reqId.rest, ErrorStatus).value.rest, ErrorIndex);
    }
  }

  lemma {:induction false} VarsLimit(s: Octets, left: nat)
    ensures TakeVars(s, left).Ok? ==> forall i :: 0 <= i < |TakeVars(s, left).value| ==>
      |TakeVars(s, left).value[i].value| <= 1024
    decreases |s|
  {
    hide VarAt;
    if left > 0 && TakeVar(s, left).Ok? {
      var t := TakeVar(s, left).value;
      VarsLimit(t.1, t.2);
      VarLimit(TakeLength(s[1..]).value.rest);
    }
  }

  lemma VarLimit(s: Octets)
    ensures VarAt(s).Ok? ==> |VarAt(s).value.value| <= 1024
  {
    hide OidContent, TakeLength;
  }

  lemma NamedLimit(s: Octets)
    requires |s| < ID_MODULUS
    ensures var r := TakeNamed(s);
      r.Ok? ==> |r.value.0| <= 40 && HeaderLimited(r.value.1) && forall i :: 0 <= i < |r.value.2| ==>
        |r.value.2[i].value| <= 1024
  {
    hide TakeVars, TakeString, TakeHeader, TakeLength, HeaderLimited;
    if TakeNamed(s).Ok? {
      StringLimit(s, NAME_MAX, ContextName, ContextNameLength);
      var name := TakeString(s, NAME_MAX, ContextName, ContextNameLength).value;
      HeaderLimit(name.rest);
      var header := TakeHeader(name.rest).value;
      var n := TakeLength(TakeTag(header.rest, TAG_SEQ, VarListSequence).value).value;
      VarsLimit(n.rest, n.value);
    }
  }

  /** Whatever octets are received: a datagram that is decoded overruns no buffer and no variable. */
  lemma MessageLimited(s: Octets)
    ensures Receive(s).Ok? ==> Limited(Receive(s).value)
  {
    hide TakeNamed, TakeV3, TakeField, TakeLength, HeaderLimited, V3Limited;
    if Receive(s).Ok? {
      var rest := TakeLength(s[1..]).value.rest;
      FieldLimit(rest, Version);
      var version := TakeField(rest, Version).value;
      if version.value.v >= 3 {
        V3Limit(version.rest);
        NamedLimit(TakeV3(version.rest).value.rest);
      } else {
        NamedLimit(version.rest);
      }
    }
  }
}
