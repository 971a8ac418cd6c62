/** Values of variables by their tags. */
module BerValue {
  import opened Oids
  import opened Asn1
  import opened Ber
  import opened BerOid

  const TAG_INT: byte := 0x02
  const TAG_OCTSTR: byte := 0x04
  const TAG_OBJID: byte := 0x06
  const TAG_SEQ: byte := 0x30
  const TAG_IPADDR: byte := 0x40
  const TAG_CNT: byte := 0x41
  const TAG_GAU: byte := 0x42
  const TAG_TIMETICKS: byte := 0x43

  function Tag(v: Value): byte {
    match v
    case Integer(_) => TAG_INT
    case OctetString(_) => TAG_OCTSTR
    case ObjectId(_) => TAG_OBJID
    case IpAddress(_) => TAG_IPADDR
    case Counter(_) => TAG_CNT
    case Gauge(_) => TAG_GAU
    case TimeTicks(_) => TAG_TIMETICKS
  }

  /** The content octets; a counter is handed to the encoder of signed integers as the word it is. */
  function Content(v: Value): Octets {
    match v
    case Integer(i) => IntOctets(i)
    case Counter(n) => IntOctets(Wrap(n))
    case Gauge(n) => IntOctets(n)
    case TimeTicks(n) => IntOctets(n)
    case OctetString(s) => s
    case IpAddress(s) => s
    case ObjectId(id) => OidOctets(id)
  }

  /** The value fits the variable of the agent that holds it. */
  ghost predicate Storable(v: Value) {
    match v
    case Integer(i) => Int32(i)
    case Counter(n) => Uint32(n)
    case Gauge(n) => Uint32(n)
    case TimeTicks(n) => Uint32(n)
    case OctetString(s) => |s| <= VALUE_MAX_LEN
    case IpAddress(s) => |s| <= VALUE_MAX_LEN
    case ObjectId(id) => |id| <= OID_MAX_LEN && Fits32(id)
  }

  /** Decode content octets; numbers need at least one, and no more than four when negative. */
  function FromContent(tag: byte, s: Octets): Option<Value> {
    if tag == TAG_OCTSTR then Some(OctetString(s))
    else if tag == TAG_IPADDR then Some(IpAddress(s))
    else if tag == TAG_OBJID then Some(ObjectId(OidContent(s)))
    else if s == [] then None
    else if tag == TAG_GAU then Some(Gauge(Num(s) % ID_MODULUS))
    else if tag == TAG_TIMETICKS then Some(TimeTicks(Num(s) % ID_MODULUS))
    else if s[0] >= 128 && |s| > 4 then None
    else if tag == TAG_INT then Some(Integer(Wrap(Signed(s))))
    else if tag == TAG_CNT then Some(Counter(Wrap(Signed(s)) % ID_MODULUS))
    else None
  }

  /**
   The agent's own decoder gives values back, counters modulo 2^32, except OIDs whose first two sub-ids do not fit
   one octet.
   */
  lemma ValueRoundTrip(v: Value)
    requires Storable(v)
    ensures FromContent(Tag(v), Content(v)) == Some(v) <==> (v.ObjectId? ==> Encodable(v.id))
  {
    match v
    case ObjectId(id) => OidRoundTrip(id);
    case Integer(i) =>
      SignOctet(i);
      IntRoundTrip(i);
    case Counter(n) =>
      WrapWord(n);
      SignOctet(Wrap(n));
      IntRoundTrip(Wrap(n));
    case Gauge(n) =>
      SignOctet(n);
      IntRoundTrip(n);
    case TimeTicks(n) =>
      SignOctet(n);
      IntRoundTrip(n);
    case OctetString(_) =>
    case IpAddress(_) =>
  }

  lemma WrapWord(n: nat)
    requires Uint32(n)
    ensures Int32(Wrap(n)) && Wrap(n) % ID_MODULUS == n && Wrap(n) == if n < ID_HALF then n else n - ID_MODULUS
  {
  }

  /** Whoever reads a counter as the integer that was encoded gets its value if and only if it is below 2^31. */
  lemma CounterRead(n: nat)
    requires Uint32(n)
    ensures Signed(Content(Counter(n))) == n <==> n < ID_HALF
  {
    WrapWord(n);
    IntOctetsMeaning(Wrap(n));
  }

  /** The largest counter is written as the single octet of -1. */
  lemma CounterMisread()
    ensures Content(Counter(0xFFFF_FFFF)) == [0xFF] && Signed([0xFF]) == -1
  {
    WrapWord(0xFFFF_FFFF);
    IntOctetsMeaning(-1);
  }

  /** Predict the size of a value; for OIDs modulo 256. */
  method ValueEncTry(v: Value) returns (len: nat)
    requires Storable(v)
    ensures len == if v.ObjectId? then |Content(v)| % 256 else |Content(v)|
  {
    match v
    case Integer(i) => len := IntEncTry(i);
    case Counter(n) =>
      WrapWord(n);
      len := IntEncTry(Wrap(n));
    case Gauge(n) => len := UintEncTry(n);
    case TimeTicks(n) => len := UintEncTry(n);
    case OctetString(s) => len := |s|;
    case IpAddress(s) => len := |s|;
    case ObjectId(id) => len := OidEncTry(id);
  }

  /** Write a value. */
  method ValueEnc(v: Value, buf: array<byte>, at: nat) returns (next: nat)
    requires Storable(v) && at + |Content(v)| <= buf.Length
    modifies buf
    ensures next == at + |Content(v)| && buf[..next] == old(buf[..at]) + Content(v)
  {
    match v
    case Integer(i) => next := IntEnc(i, buf, at);
    case Counter(n) =>
      WrapWord(n);
      next := IntEnc(Wrap(n), buf, at);
    case Gauge(n) => next := UintEnc(n, buf, at);
    case TimeTicks(n) => next := UintEnc(n, buf, at);
    case OctetString(s) => next := Copy(s, buf, at);
    case IpAddress(s) => next := Copy(s, buf, at);
    case ObjectId(id) => next := OidEnc(id, buf, at);
  }

  method Copy(s: Octets, buf: array<byte>, at: nat) returns (next: nat)
    requires at + |s| <= buf.Length
    modifies buf
    ensures next == at + |s| && buf[..next] == old(buf[..at]) + s
  {
    forall i | 0 <= i < |s| {
      buf[at + i] := s[i];
    }
    next := at + |s|;
  }
}
