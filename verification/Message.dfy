/**
 SNMP messages and their encoding as nested tag-length-value triples, stated by structure: every length is the
 size of what it encloses.
 */
module Message {
  import opened Oids
  import opened Asn1
  import opened Ber
  import opened BerOid
  import opened BerValue

  /** An integer of a message with the size of its content octets, which a response takes over from the request. */
  datatype Field = Field(v: int, size: nat)

  /** A variable binding: the value's tag and content octets. */
  datatype VarBind = VarBind(oid: Oid, tag: byte, value: Octets)

  datatype Header = Header(kind: byte, reqId: Field, errStat: Field, errIdx: Field)

  datatype Global = Global(id: Field, maxSize: Field, flags: Octets, model: Field)

  datatype Security = Security(engineId: Octets, boots: Field, time: Field, user: Octets, auth: Octets, priv: Octets)

  datatype V3 = V3(global: Global, security: Security, contextId: Octets)

  datatype Message = Message(version: Field, v3: Option<V3>, name: Octets, header: Header, vars: seq<VarBind>)

  const ENGINE_ID: Octets := [0x80, 0, 0, 0, 0x04, 0x53, 0x6d, 0x61, 0x72, 0x74, 0x53, 0x4e, 0x4d, 0x50]

  const NAME_MAX: nat := 40
  const ENGINE_MAX: nat := 32

  /** Tag and length; lengths are words of 32 bits. */
  function Head(tag: byte, n: nat): Octets {
    [tag] + LengthOctets(n % ID_MODULUS)
  }

  function Tlv(tag: byte, s: Octets): (r: Octets)
    ensures |s| < |r|
  {
    Head(tag, |s|) + s
  }

  /** An integer with the stored size in front. */
  function FieldOctets(f: Field): Octets {
    Head(TAG_INT, f.size) + IntOctets(f.v)
  }

  function VarContent(b: VarBind): Octets {
    Tlv(TAG_OBJID, OidOctets(b.oid)) + Tlv(b.tag, b.value)
  }

  function VarOctets(b: VarBind): Octets {
    Tlv(TAG_SEQ, VarContent(b))
  }

  function VarsOctets(bs: seq<VarBind>): Octets {
    if bs == [] then [] else VarOctets(bs[0]) + VarsOctets(bs[1..])
  }

  function PduContent(h: Header, bs: seq<VarBind>): Octets {
    FieldOctets(h.reqId) + (FieldOctets(h.errStat) + (FieldOctets(h.errIdx) + Tlv(TAG_SEQ, VarsOctets(bs))))
  }

  function PduOctets(h: Header, bs: seq<VarBind>): Octets {
    Tlv(h.kind, PduContent(h, bs))
  }

  function GlobalContent(g: Global): Octets {
    FieldOctets(g.id) + (FieldOctets(g.maxSize) + (Tlv(TAG_OCTSTR, g.flags) + FieldOctets(g.model)))
  }

  function GlobalOctets(g: Global): Octets {
    Tlv(TAG_SEQ, GlobalContent(g))
  }

  function SecurityContent(s: Security): Octets {
    Tlv(TAG_OCTSTR, s.engineId) + (FieldOctets(s.boots) + (FieldOctets(s.time) + (Tlv(TAG_OCTSTR, s.user) +
    (Tlv(TAG_OCTSTR, s.auth) + Tlv(TAG_OCTSTR, s.priv)))))
  }

  function SecurityOctets(s: Security): Octets {
    Tlv(TAG_OCTSTR, Tlv(TAG_SEQ, SecurityContent(s)))
  }

  function NamedPdu(m: Message): Octets {
    Tlv(TAG_OCTSTR, m.name) + PduOctets(m.header, m.vars)
  }

  function ScopedContent(x: V3, m: Message): Octets {
    Tlv(TAG_OCTSTR, x.contextId) + NamedPdu(m)
  }

  function Body(m: Message): Octets {
    match m.v3
    case None => FieldOctets(m.version) + NamedPdu(m)
    case Some(x) =>
      FieldOctets(m.version) + (GlobalOctets(x.global) + (SecurityOctets(x.security) +
      Tlv(TAG_SEQ, ScopedContent(x, m))))
  }

  function MessageOctets(m: Message): Octets {
    Tlv(TAG_SEQ, Body(m))
  }

  /** The stored size is the size of the value. */
  predicate FieldFits(f: Field) {
    Int32(f.v) && f.size == |IntOctets(f.v)|
  }

  ghost predicate VarFits(b: VarBind) {
    Fits32(b.oid) && |b.oid| <= OID_MAX_LEN && |OidOctets(b.oid)| < 256
      && |b.value| <= VALUE_MAX_LEN
  }

  /** The first two sub-ids of every name fit one octet. */
  predicate NamesEncodable(bs: seq<VarBind>) {
    forall i :: 0 <= i < |bs| ==> Encodable(bs[i].oid)
  }

  predicate HeaderFits(h: Header) {
    FieldFits(h.reqId) && FieldFits(h.errStat) && FieldFits(h.errIdx)
  }

  predicate GlobalFits(g: Global) {
    FieldFits(g.id) && FieldFits(g.maxSize) && |g.flags| <= 1 && FieldFits(g.model)
  }

  predicate SecurityFits(s: Security) {
    && |s.engineId| <= ENGINE_MAX && FieldFits(s.boots) && FieldFits(s.time)
    && |s.user| <= NAME_MAX && |s.auth| <= NAME_MAX && |s.priv| <= NAME_MAX
  }

  /** The message keeps to the limits of the decoder, and its sizes are those of its values. */
  ghost predicate PartsFit(m: Message) {
    && FieldFits(m.version) && (m.v3.Some? <==> m.version.v >= 3) && |m.name| <= NAME_MAX
    && HeaderFits(m.header) && (forall i :: 0 <= i < |m.vars| ==> VarFits(m.vars[i]))
    && (m.v3.Some? ==>
        && GlobalFits(m.v3.value.global) && SecurityFits(m.v3.value.security)
        && |m.v3.value.contextId| <= ENGINE_MAX)
  }

  ghost predicate Fits(m: Message) {
    PartsFit(m) && |MessageOctets(m)| < ID_MODULUS
  }
}
