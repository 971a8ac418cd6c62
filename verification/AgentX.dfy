/**
 AgentX PDUs (sections 5 and 6 of RFC 2741): the encoding by structure, in either byte order, and the decoder of what
 a master sends. Little-endian is the byte order of the machine, and a flag of the header tells the other one.
 */
module AgentX {
  import opened Oids
  import opened Asn1
  import opened Ber
  import opened BerValue
  import opened Parsing

  const TAG_CNT64: byte := 0x46

  const PDU_CLOSE: byte := 2
  const PDU_GET: byte := 5
  const PDU_GETNEXT: byte := 6
  const PDU_GETBULK: byte := 7
  const PDU_TESTSET: byte := 8
  const PDU_RESPONSE: byte := 18

  const CONTEXT_MAX: nat := 40

  /** The prefix that an encoded OID leaves out. */
  const INTERNET: Oid := [1, 3, 6, 1]

  datatype Data = Long(n: nat) | LongLong(n: nat) | Text(octets: Octets) | Object(id: Oid) | Nothing

  datatype VarBind = VarBind(oid: Oid, tag: byte, data: Data)

  /** Where a search begins and ends, and whether the ends belong to it. */
  datatype Range = Range(start: Oid, startIncluded: bool, end: Oid, endIncluded: bool)

  datatype Header = Header(version: byte, kind: byte, flags: byte, session: nat, transaction: nat, packet: nat)

  datatype Special =
    | Plain
    | Close(reason: byte)
    | Bulk(nonRepeaters: nat, repetitions: nat)
    | Outcome(upTime: nat, error: nat, index: nat)

  datatype Pdu = Pdu(header: Header, context: Octets, special: Special, vars: seq<VarBind>, ranges: seq<Range>)

  /** A word of `k` octets, the low one first. */
  function Word(n: nat, k: nat): (s: Octets)
    ensures |s| == k
    decreases k
  {
    if k == 0 then [] else [n % 256] + Word(n / 256, k - 1)
  }

  /** A word in the byte order of the machine or of the network. */
  function Ordered(n: nat, k: nat, network: bool): (s: Octets)
    ensures |s| == k
  {
    if network then Low(n, k) else Word(n, k)
  }

  function Words(o: Oid, network: bool := false): (s: Octets)
    ensures |s| == 4 * |o|
  {
    if o == [] then [] else Ordered(o[0], 4, network) + Words(o[1..], network)
  }

  function Zeros(n: nat): (s: Octets)
    ensures |s| == n && forall i :: 0 <= i < n ==> s[i] == 0
  {
    seq(n, _ => 0)
  }

  /** Sizes are rounded up to whole words. */
  function Padded(n: nat): (p: nat)
    ensures n <= p < n + 4 && p % 4 == 0
  {
    (n + 3) / 4 * 4
  }

  /** The sub-ids that are written out in full. */
  function Tail(o: Oid): Oid {
    if |o| > 5 then o[5..] else []
  }

  /** An OID: how many sub-ids follow, the fifth one, and the rest. */
  function ObjectOctets(o: Oid, included: bool, network: bool := false): Octets {
    [|Tail(o)| % 256, if |o| > 4 then o[4] % 256 else 0, if included then 1 else 0, 0] + Words(Tail(o), network)
  }

  /** Octets with their number in front, filled up to a whole word. */
  function TextOctets(s: Octets, network: bool): Octets {
    Ordered(|s|, 4, network) + s + Zeros(Padded(|s|) - |s|)
  }

  function DataOctets(d: Data, network: bool := false): Octets {
    match d
    case Long(n) => Ordered(n, 4, network)
    case LongLong(n) => Ordered(n, 8, network)
    case Text(s) => TextOctets(s, network)
    case Object(o) => ObjectOctets(o, false, network)
    case Nothing => []
  }

  function VarOctets(b: VarBind, network: bool := false): Octets {
    Ordered(b.tag, 2, network) + [0, 0] + ObjectOctets(b.oid, false, network) + DataOctets(b.data, network)
  }

  function VarsOctets(bs: seq<VarBind>, network: bool := false): Octets {
    if bs == [] then [] else VarOctets(bs[0], network) + VarsOctets(bs[1..], network)
  }

  function RangeOctets(r: Range, network: bool := false): Octets {
    ObjectOctets(r.start, r.startIncluded, network) + ObjectOctets(r.end, r.endIncluded, network)
  }

  function RangesOctets(rs: seq<Range>, network: bool := false): Octets {
    if rs == [] then [] else RangeOctets(rs[0], network) + RangesOctets(rs[1..], network)
  }

  function HeaderOctets(h: Header, payload: nat, network: bool := false): (s: Octets)
    ensures |s| == 20
  {
    [h.version, h.kind, h.flags, 0] + Ordered(h.session, 4, network) + Ordered(h.transaction, 4, network) +
    Ordered(h.packet, 4, network) + Ordered(payload, 4, network)
  }

  predicate Network(flags: byte) {
    flags / 16 % 2 == 1
  }

  predicate HasContext(flags: byte) {
    flags / 8 % 2 == 1
  }

  function ContextOctets(c: Octets, flags: byte): Octets {
    if HasContext(flags) then TextOctets(c, Network(flags)) else []
  }

  function SpecialOctets(x: Special, network: bool): Octets {
    match x
    case Plain => []
    case Close(reason) => [reason, 0, 0, 0]
    case Bulk(a, b) => Ordered(a, 2, network) + Ordered(b, 2, network)
    case Outcome(t, e, i) => Ordered(t, 4, network) + Ordered(e, 2, network) + Ordered(i, 2, network)
  }

  function Payload(p: Pdu): Octets {
    var network := Network(p.header.flags);
    ContextOctets(p.context, p.header.flags) + (SpecialOctets(p.special, network) +
    (RangesOctets(p.ranges, network) + VarsOctets(p.vars, network)))
  }

  /** A PDU in the byte order that its flags tell. */
  function PduOctets(p: Pdu): Octets {
    HeaderOctets(p.header, |Payload(p)|, Network(p.header.flags)) + Payload(p)
  }

  /** A response: no uptime, the error and its index, and the bindings. */
  function ResponseOctets(h: Header, error: nat, index: nat, bs: seq<VarBind>): Octets {
    HeaderOctets(h, 8 + |VarsOctets(bs)|) + (Word(0, 4) + Word(error, 2) + Word(index, 2) + VarsOctets(bs))
  }

  predicate IsLong(tag: byte) {
    tag == TAG_INT || tag == TAG_CNT || tag == TAG_GAU || tag == TAG_TIMETICKS
  }

  predicate IsText(tag: byte) {
    tag == TAG_OCTSTR || tag == TAG_IPADDR
  }

  /** The tag determines the form of the data (section 5.4 of RFC 2741). */
  ghost predicate DataFits(tag: byte, d: Data) {
    match d
    case Long(n) => (tag == 2 || tag == 0x41 || tag == 0x42 || tag == 0x43) && n < Pow256(4)
    case LongLong(n) => tag == 0x46 && n < Pow256(8)
    case Text(s) => (tag == 4 || tag == 0x40) && |s| <= VALUE_MAX_LEN
    case Object(o) => tag == 6 && Fits32(o) && |o| <= OID_MAX_LEN
    case Nothing => tag != 2 && tag != 4 && tag != 6 && !(0x40 <= tag <= 0x43) && tag != 0x46
  }

  // ---------- Sizes

  lemma ObjectSize(o: Oid, included: bool, network: bool := false)
    ensures |ObjectOctets(o, included, network)| == 4 + 4 * |Tail(o)|
  {
  }

  lemma VarSize(b: VarBind, network: bool := false)
    ensures |VarOctets(b, network)| % 4 == 0 && |VarOctets(b, network)| >= 8
  {
    hide ObjectOctets, DataOctets, Tail, Ordered;
    ObjectSize(b.oid, false, network);
    WholeWords(|Tail(b.oid)|);
    DataSize(b.data, network);
  }

  lemma DataSize(d: Data, network: bool)
    ensures |DataOctets(d, network)| % 4 == 0
  {
    hide Ordered, Zeros, ObjectOctets, Tail;
    match d
    case Object(o) =>
      ObjectSize(o, false, network);
      WholeWords(|Tail(o)|);
    case Text(s) => assert |DataOctets(d, network)| == 4 + Padded(|s|);
    case _ =>
  }

  lemma WholeWords(n: nat)
    ensures (4 + 4 * n) % 4 == 0
  {
  }

  /** Payloads consist of whole words (section 6.1 of RFC 2741). */
  lemma {:induction false} VarsSize(bs: seq<VarBind>)
    ensures |VarsOctets(bs)| % 4 == 0
  {
    hide VarOctets;
    if bs != [] {
      VarSize(bs[0]);
      VarsSize(bs[1..]);
    }
  }

  // ---------- Decoding

  datatype Failure = ContextLength | OidLength | ValueLength | Undefined

  function WordValue(s: Octets): nat {
    if s == [] then 0 else s[0] + 256 * WordValue(s[1..])
  }

  /** Read a word of `k` octets in the given byte order. */
  function TakeWord(s: Octets, k: nat, network: bool): Result<Parsed<nat>, Failure> {
    if |s| < k then Err(Undefined)
    else Ok(Parsed(if network then Num(s[..k]) else WordValue(s[..k]), s[k..]))
  }

  function TakeWords(s: Octets, n: nat): Result<Parsed<Oid>, Failure> {
    if n == 0 then Ok(Parsed([], s))
    else
      var w :- TakeWord(s, 4, false);
      var more :- TakeWords(w.rest, n - 1);
      Ok(Parsed([w.value] + more.value, more.rest))
  }

  datatype Named = Named(oid: Oid, included: bool)

  /** An OID of at most `max` octets in memory; no sub-ids and no prefix stand for the empty one. */
  function TakeObject(s: Octets, max: nat, e: Failure): Result<Parsed<Named>, Failure> {
    if |s| < 4 then Err(Undefined)
    else if s[0] == 0 && s[1] == 0 then Ok(Parsed(Named([], s[2] != 0), s[4..]))
    else if (s[0] + 5) * 4 > max then Err(e)
    else
      var more :- TakeWords(s[4..], s[0]);
      Ok(Parsed(Named(INTERNET + [s[1]] + more.value, s[2] != 0), more.rest))
  }

  function TakeText(s: Octets): Result<Parsed<Data>, Failure> {
    var n :- TakeWord(s, 4, false);
    if n.value > VALUE_MAX_LEN then Err(ValueLength)
    else if Padded(n.value) > |n.rest| then Err(Undefined)
    else Ok(Parsed(Text(n.rest[..n.value]), n.rest[Padded(n.value)..]))
  }

  function TakeData(tag: byte, s: Octets): Result<Parsed<Data>, Failure> {
    if IsLong(tag) then
      var w :- TakeWord(s, 4, false);
      Ok(Parsed(Long(w.value), w.rest))
    else if tag == TAG_CNT64 then
      var w :- TakeWord(s, 8, false);
      Ok(Parsed(LongLong(w.value), w.rest))
    else if IsText(tag) then TakeText(s)
    else if tag == TAG_OBJID then
      var o :- TakeObject(s, VALUE_MAX_LEN, ValueLength);
      Ok(Parsed(Object(o.value.oid), o.rest))
    else Ok(Parsed(Nothing, s))
  }

  /** One binding; only the low octet of its tag counts. */
  function TakeVar(s: Octets, network: bool): Result<Parsed<VarBind>, Failure> {
    var tag :- TakeWord(s, 2, network);
    var skip :- TakeWord(tag.rest, 2, false);
    var o :- TakeObject(skip.rest, 4 * OID_MAX_LEN, OidLength);
    var d :- TakeData(tag.value % 256, o.rest);
    Ok(Parsed(VarBind(o.value.oid, tag.value % 256, d.value), d.rest))
  }

  function TakeRange(s: Octets): Result<Parsed<Range>, Failure> {
    var a :- TakeObject(s, 4 * OID_MAX_LEN, OidLength);
    var b :- TakeObject(a.rest, 4 * OID_MAX_LEN, OidLength);
    Ok(Parsed(Range(a.value.oid, a.value.included, b.value.oid, b.value.included), b.rest))
  }

  /** What is left of the payload, counted down in 32 bits. */
  function Left(left: nat, s: Octets, rest: Octets): nat {
    (left - (|s| - |rest|)) % ID_MODULUS
  }

  function TakeVars(s: Octets, left: nat, network: bool): Result<seq<VarBind>, Failure>
    decreases |s|
  {
    if left == 0 then Ok([])
    else
      var b :- TakeVar(s, network);
      VarShrinks(s, network);
      var more :- TakeVars(b.rest, Left(left, s, b.rest), network);
      Ok([b.value] + more)
  }

  function TakeRanges(s: Octets, left: nat): Result<seq<Range>, Failure>
    decreases |s|
  {
    if left == 0 then Ok([])
    else
      var r :- TakeRange(s);
      RangeShrinks(s);
      var more :- TakeRanges(r.rest, Left(left, s, r.rest));
      Ok([r.value] + more)
  }

  lemma {:induction false} WordsShrink(s: Octets, n: nat)
    ensures TakeWords(s, n).Ok? ==> |TakeWords(s, n).value.rest| <= |s|
    decreases n
  {
    if n > 0 && TakeWord(s, 4, false).Ok? {
      WordsShrink(TakeWord(s, 4, false).value.rest, n - 1);
    }
  }

  lemma ObjectShrinks(s: Octets, max: nat, e: Failure)
    ensures TakeObject(s, max, e).Ok? ==> |TakeObject(s, max, e).value.rest| < |s|
  {
    if |s| >= 4 {
      WordsShrink(s[4..], s[0]);
    }
  }

  lemma DataShrinks(tag: byte, s: Octets)
    ensures TakeData(tag, s).Ok? ==> |TakeData(tag, s).value.rest| <= |s|
  {
    hide TakeObject;
    ObjectShrinks(s, VALUE_MAX_LEN, ValueLength);
  }

  lemma VarShrinks(s: Octets, network: bool)
    ensures TakeVar(s, network).Ok? ==> |TakeVar(s, network).value.rest| < |s|
  {
    hide TakeObject, TakeData;
    if |s| >= 4 {
      var t := s[2..][2..];
      ObjectShrinks(t, 4 * OID_MAX_LEN, OidLength);
      var tag := (if network then Num(s[..2]) else WordValue(s[..2])) % 256;
      if TakeObject(t, 4 * OID_MAX_LEN, OidLength).Ok? {
        DataShrinks(tag, TakeObject(t, 4 * OID_MAX_LEN, OidLength).value.rest);
      }
    }
  }

  lemma RangeShrinks(s: Octets)
    ensures TakeRange(s).Ok? ==> |TakeRange(s).value.rest| < |s|
  {
    hide TakeObject;
    ObjectShrinks(s, 4 * OID_MAX_LEN, OidLength);
    if TakeObject(s, 4 * OID_MAX_LEN, OidLength).Ok? {
      ObjectShrinks(TakeObject(s, 4 * OID_MAX_LEN, OidLength).value.rest, 4 * OID_MAX_LEN, OidLength);
    }
  }

  /** The items read before, and those still to be read. */
  function Prepended<T>(list: seq<T>, more: Result<seq<T>, Failure>): Result<seq<T>, Failure> {
    match more
    case Ok(items) => Ok(list + items)
    case Err(e) => Err(e)
  }

  lemma PrependOne<T>(list: seq<T>, item: T, more: Result<seq<T>, Failure>)
    ensures Prepended(list, Prepended([item], more)) == Prepended(list + [item], more)
  {
    assert more.Ok? ==> list + ([item] + more.value) == list + [item] + more.value;
  }

  lemma PrependNone<T>(list: seq<T>, more: Result<seq<T>, Failure>)
    ensures Prepended(list, Ok([])) == Ok(list) && Prepended([], more) == more
  {
    assert list + [] == list && (more.Ok? ==> [] + more.value == more.value);
  }

  lemma PrependIs<T>(list: seq<T>, item: T, more: Result<seq<T>, Failure>)
    requires list != []
    ensures Prepended([item], more) == Ok(list) <==> item == list[0] && more == Ok(list[1..])
  {
    assert list == [list[0]] + list[1..];
    assert more.Ok? ==> ([item] + more.value)[0] == item && ([item] + more.value)[1..] == more.value;
  }

  lemma VarsStep(s: Octets, left: nat, network: bool)
    requires left > 0
    ensures var b := TakeVar(s, network);
      TakeVars(s, left, network) == if b.Err? then Err(b.error)
        else Prepended([b.value.value], TakeVars(b.value.rest, Left(left, s, b.value.rest), network))
  {
    hide TakeVar;
  }

  /** The loop over the bindings. */
  method ParseVars(s: Octets, n: nat, network: bool) returns (r: Result<seq<VarBind>, Failure>)
    ensures r == TakeVars(s, n, network)
  {
    hide TakeVar, TakeVars, Prepended, Left;
    var rest, left, list := s, n, [];
    PrependNone([], TakeVars(s, n, network));
    while left > 0
      invariant TakeVars(s, n, network) == Prepended(list, TakeVars(rest, left, network))
      decreases |rest|
    {
      var b := TakeVar(rest, network);
      VarsStep(rest, left, network);
      if b.Err? {
        FailsToo(list, b.error);
        return Err(b.error);
      }
      VarShrinks(rest, network);
      var left' := Left(left, rest, b.value.rest);
      PrependOne(list, b.value.value, TakeVars(b.value.rest, left', network));
      list, rest, left := list + [b.value.value], b.value.rest, left';
    }
    PrependNone(list, Ok([]));
    NoVars(rest, network);
    return Ok(list);
  }

  lemma FailsToo<T>(list: seq<T>, e: Failure)
    ensures Prepended(list, Err(e)) == Err(e)
  {
  }

  lemma NoVars(s: Octets, network: bool)
    ensures TakeVars(s, 0, network) == Ok([]) && TakeRanges(s, 0) == Ok([])
  {
  }

  lemma RangesStep(s: Octets, left: nat)
    requires left > 0
    ensures var b := TakeRange(s);
      TakeRanges(s, left) == if b.Err? then Err(b.error)
        else Prepended([b.value.value], TakeRanges(b.value.rest, Left(left, s, b.value.rest)))
  {
    hide TakeRange;
  }

  /** The loop over the search ranges. */
  method ParseRanges(s: Octets, n: nat) returns (r: Result<seq<Range>, Failure>)
    ensures r == TakeRanges(s, n)
  {
    hide TakeRange, TakeRanges, Prepended, Left;
    var rest, left, list := s, n, [];
    PrependNone([], TakeRanges(s, n));
    while left > 0
      invariant TakeRanges(s, n) == Prepended(list, TakeRanges(rest, left))
      decreases |rest|
    {
      var b := TakeRange(rest);
      RangesStep(rest, left);
      if b.Err? {
        FailsToo(list, b.error);
        return Err(b.error);
      }
      RangeShrinks(rest);
      var left' := Left(left, rest, b.value.rest);
      PrependOne(list, b.value.value, TakeRanges(b.value.rest, left'));
      list, rest, left := list + [b.value.value], b.value.rest, left';
    }
    PrependNone(list, Ok([]));
    NoVars(rest, false);
    return Ok(list);
  }

  /** The fixed header and the length of the payload. */
  function TakeHeader(s: Octets): Result<Parsed<(Header, nat)>, Failure> {
    if |s| < 4 then Err(Undefined)
    else
      var network := Network(s[2]);
      var session :- TakeWord(s[4..], 4, network);
      var transaction :- TakeWord(session.rest, 4, network);
      var packet :- TakeWord(transaction.rest, 4, network);
      var payload :- TakeWord(packet.rest, 4, network);
      Ok(Parsed((Header(s[0], s[1], s[2], session.value, transaction.value, packet.value), payload.value),
        payload.rest))
  }

  function TakeContext(s: Octets, flags: byte): Result<Parsed<Octets>, Failure> {
    if !HasContext(flags) then Ok(Parsed([], s))
    else
      var n :- TakeWord(s, 4, Network(flags));
      if (n.value + 1) % ID_MODULUS > CONTEXT_MAX + 1 then Err(ContextLength)
      else if Padded(n.value) > |n.rest| then Err(Undefined)
      else Ok(Parsed(n.rest[..n.value], n.rest[Padded(n.value)..]))
  }

  /** The fields that some kinds of PDU begin with. */
  function TakeSpecial(s: Octets, kind: byte, network: bool): Result<Parsed<Special>, Failure> {
    if kind == PDU_CLOSE then
      if |s| < 4 then Err(Undefined) else Ok(Parsed(Close(s[0]), s[4..]))
    else if kind == PDU_GETBULK then
      var a :- TakeWord(s, 2, network);
      var b :- TakeWord(a.rest, 2, network);
      Ok(Parsed(Bulk(a.value, b.value), b.rest))
    else if kind == PDU_RESPONSE then
      var t :- TakeWord(s, 4, network);
      var e :- TakeWord(t.rest, 2, network);
      var i :- TakeWord(e.rest, 2, network);
      Ok(Parsed(Outcome(t.value, e.value, i.value), i.rest))
    else Ok(Parsed(Plain, s))
  }

  /** Decode a PDU: searches carry ranges, updates and responses carry bindings. */
  function Decode(s: Octets): Result<Pdu, Failure> {
    var h :- TakeHeader(s);
    var header, payload := h.value.0, h.value.1;
    var network := Network(header.flags);
    var context :- TakeContext(h.rest, header.flags);
    var special :- TakeSpecial(context.rest, header.kind, network);
    var left := Left(payload, h.rest, special.rest);
    if header.kind == PDU_GET || header.kind == PDU_GETNEXT || header.kind == PDU_GETBULK then
      var ranges :- TakeRanges(special.rest, left);
      Ok(Pdu(header, context.value, special.value, [], ranges))
    else if header.kind == PDU_TESTSET || header.kind == PDU_RESPONSE then
      var vars :- TakeVars(special.rest, left, network);
      Ok(Pdu(header, context.value, special.value, vars, []))
    else Ok(Pdu(header, context.value, special.value, [], []))
  }

  // ---------- Each part comes back from its octets, whatever follows

  lemma {:induction false} WordRoundTrip(n: nat, k: nat)
    requires n < Pow256(k)
    ensures WordValue(Word(n, k)) == n
    decreases k
  {
    if k > 0 {
      WordRoundTrip(n / 256, k - 1);
      assert Word(n, k)[1..] == Word(n / 256, k - 1);
    }
  }

  lemma {:induction false} WordOfValue(s: Octets)
    ensures Word(WordValue(s), |s|) == s
  {
    if s != [] {
      var v := WordValue(s[1..]);
      WordOfValue(s[1..]);
      LowOctet(s[0], v);
      assert Word(WordValue(s), |s|) == [s[0]] + Word(v, |s| - 1);
    }
  }

  lemma LowOctet(b: byte, v: nat)
    ensures (b + 256 * v) % 256 == b && (b + 256 * v) / 256 == v
  {
  }

  lemma {:induction false} LowRoundTrip(n: nat, k: nat)
    requires n < Pow256(k)
    ensures Num(Low(n, k)) == n
    decreases k
  {
    if k > 0 {
      LowRoundTrip(n / 256, k - 1);
      NumSnoc(Low(n / 256, k - 1), n % 256);
    }
  }

  /** The octets of a word are the same in both byte orders. */
  predicate Symmetric(n: nat, k: nat) {
    Low(n, k) == Word(n, k)
  }

  /** A word is read back in its own byte order. Read in the other one, it has to be symmetric. */
  lemma TakeWordBack(n: nat, k: nat, network: bool, rest: Octets)
    requires n < Pow256(k)
    ensures TakeWord(Ordered(n, k, network) + rest, k, network) == Ok(Parsed(n, rest))
    ensures var r := TakeWord(Ordered(n, k, network) + rest, k, false);
      r.Ok? && r.value.rest == rest && (r.value.value == n <==> (network ==> Symmetric(n, k)))
    ensures var r := TakeWord(Ordered(n, k, network) + rest, k, true);
      r.Ok? && r.value.rest == rest && (r.value.value == n <==> (!network ==> Symmetric(n, k)))
  {
    WordRoundTrip(n, k);
    LowRoundTrip(n, k);
    WordOfValue(Low(n, k));
    LowOfNum(Word(n, k));
    assert (Ordered(n, k, network) + rest)[..k] == Ordered(n, k, network);
  }

  ghost predicate SymmetricIds(o: Oid) {
    forall i :: 0 <= i < |o| ==> Symmetric(o[i], 4)
  }

  lemma {:induction false} WordsBack(o: Oid, network: bool, rest: Octets)
    requires Fits32(o)
    ensures var r := TakeWords(Words(o, network) + rest, |o|);
      r.Ok? && r.value.rest == rest && (r.value.value == o <==> (network ==> SymmetricIds(o)))
  {
    hide Ordered, TakeWord, Symmetric;
    if o == [] {
      assert Words(o, network) + rest == rest;
    } else {
      var more := Words(o[1..], network) + rest;
      assert Words(o, network) + rest == Ordered(o[0], 4, network) + more;
      SmallPowers();
      TakeWordBack(o[0], 4, network, more);
      WordsBack(o[1..], network, rest);
      SplitIds(o);
      assert o == [o[0]] + o[1..];
    }
  }

  lemma SplitIds(o: Oid)
    requires o != []
    ensures SymmetricIds(o) <==> Symmetric(o[0], 4) && SymmetricIds(o[1..])
  {
    hide Symmetric;
    assert forall i :: 0 < i < |o| ==> o[i] == o[1..][i - 1];
  }

  /** The OIDs that AgentX can carry here: none, or 1.3.6.1 and a fifth sub-id of one octet, which is not a lone 0. */
  predicate Carried(o: Oid) {
    o == [] || (|o| >= 5 && o[..4] == INTERNET && o[4] < 256 && (o[4] > 0 || |o| > 5))
  }

  /** The OIDs that come back: sub-ids are read in the byte order of the machine, whatever the flag says. */
  ghost predicate Comes(o: Oid, network: bool) {
    Carried(o) && (network ==> SymmetricIds(Tail(o)))
  }

  /** What the decoder makes of an encoded OID. */
  lemma ObjectBack(o: Oid, included: bool, network: bool, max: nat, e: Failure, rest: Octets)
    requires Fits32(o) && |o| <= OID_MAX_LEN && 4 * OID_MAX_LEN <= max
    ensures var r := TakeObject(ObjectOctets(o, included, network) + rest, max, e);
      && r.Ok? && r.value.rest == rest && r.value.value.included == included
      && (r.value.value.oid == o <==> Comes(o, network))
  {
    hide TakeWords, Words, SymmetricIds;
    var s := ObjectOctets(o, included, network) + rest;
    var t := Tail(o);
    assert s[4..] == Words(t, network) + rest;
    assert s[0] == |t|;
    if s[0] == 0 && s[1] == 0 {
      assert t == [];
      assert s[4..] == rest && SymmetricIds(t) by {
        NoIds(network);
      }
    } else {
      WordsBack(t, network, rest);
      var read := TakeWords(s[4..], s[0]).value.value;
      var oid := INTERNET + [s[1]] + read;
      assert TakeObject(s, max, e).value.value.oid == oid;
      assert |o| >= 5 ==> o == o[..4] + [o[4]] + t;
      assert oid[..4] == INTERNET && oid[4] == s[1] && oid[5..] == read;
    }
  }

  lemma NoIds(network: bool)
    ensures Words([], network) == [] && SymmetricIds([])
  {
  }

  /** 1.3.6.1.0 comes back as the empty OID, and so does 1.3. */
  lemma NotCarried(rest: Octets)
    ensures TakeObject(ObjectOctets([1, 3, 6, 1, 0], false) + rest, 4 * OID_MAX_LEN, OidLength) ==
      Ok(Parsed(Named([], false), rest))
    ensures TakeObject(ObjectOctets([1, 3], false) + rest, 4 * OID_MAX_LEN, OidLength) ==
      Ok(Parsed(Named([], false), rest))
  {
    var s := [0, 0, 0, 0] + rest;
    assert ObjectOctets([1, 3, 6, 1, 0], false) == [0, 0, 0, 0] && ObjectOctets([1, 3], false) == [0, 0, 0, 0];
    assert s[4..] == rest;
  }

  lemma FourOctets(a: byte, b: byte, c: byte, d: byte)
    ensures WordValue([a, b, c, d]) == a + 0x100 * b + 0x1_0000 * c + 0x100_0000 * d
  {
    var s := [a, b, c, d];
    assert s[1..] == [b, c, d] && [b, c, d][1..] == [c, d] && [c, d][1..] == [d] && [d][1..] == [];
    assert WordValue([d]) == d && WordValue([c, d]) == c + 256 * WordValue([d]);
    assert WordValue([b, c, d]) == b + 256 * WordValue([c, d]);
  }

  /** 1.3.6.1.2.1 in network byte order is read as 1.3.6.1.2.16777216. */
  lemma NetworkMisread(rest: Octets)
    ensures TakeObject([1, 2, 0, 0, 0, 0, 0, 1] + rest, 4 * OID_MAX_LEN, OidLength) ==
      Ok(Parsed(Named([1, 3, 6, 1, 2, 0x100_0000], false), rest))
    ensures ObjectOctets([1, 3, 6, 1, 2, 1], false, true) == [1, 2, 0, 0, 0, 0, 0, 1]
  {
    var s := [1, 2, 0, 0, 0, 0, 0, 1] + rest;
    var t := s[4..];
    assert t[4..] == rest;
    assert t[..4] == [0, 0, 0, 1];
    FourOctets(0, 0, 0, 1);
    assert TakeWord(t, 4, false) == Ok(Parsed(0x100_0000, rest));
    assert TakeWords(rest, 0) == Ok(Parsed([], rest));
    assert TakeWords(t, 1) == Ok(Parsed([0x100_0000] + [], rest));
    assert s[0] == 1 && s[1] == 2 && s[2] == 0;
    assert INTERNET + [2] + ([0x100_0000] + []) == [1, 3, 6, 1, 2, 0x100_0000];
    assert Tail([1, 3, 6, 1, 2, 1]) == [1];
    assert Low(1, 4) == [0, 0, 0, 1];
    assert Words([1], true) == [0, 0, 0, 1] + Words([], true);
  }

  /** The values that come back. A text in network byte order has its length misread, and only the empty one comes. */
  ghost predicate DataComes(d: Data, network: bool) {
    match d
    case Long(n) => network ==> Symmetric(n, 4)
    case LongLong(n) => network ==> Symmetric(n, 8)
    case Text(s) => network ==> s == []
    case Object(o) => Comes(o, network)
    case Nothing => true
  }

  lemma DataBack(tag: byte, d: Data, network: bool, rest: Octets)
    requires DataFits(tag, d)
    ensures var r := TakeData(tag, DataOctets(d, network) + rest);
      && (r.Ok? ==> r.value.rest == rest) && (!network ==> r.Ok?)
      && (r.Ok? && r.value.value == d <==> DataComes(d, network))
  {
    hide TakeObject, TakeWord, TakeText, TextOctets, Ordered, ObjectOctets, Comes, Pow256, Symmetric;
    match d
    case Long(n) => TakeWordBack(n, 4, network, rest);
    case LongLong(n) => TakeWordBack(n, 8, network, rest);
    case Text(s) =>
      TextBack(s, network, rest);
    case Object(o) => ObjectBack(o, false, network, VALUE_MAX_LEN, ValueLength, rest);
    case Nothing => assert [] + rest == rest;
  }

  lemma TextBack(s: Octets, network: bool, rest: Octets)
    requires |s| <= VALUE_MAX_LEN
    ensures TakeText(TextOctets(s, network) + rest) ==
      if network && s != [] then Err(ValueLength) else Ok(Parsed(Text(s), rest))
  {
    hide TakeWord, Ordered, Symmetric, Pow256;
    var pad := Zeros(Padded(|s|) - |s|);
    var more := s + (pad + rest);
    assert TextOctets(s, network) + rest == Ordered(|s|, 4, network) + more;
    SmallPowers();
    TakeWordBack(|s|, 4, network, more);
    assert more[..|s|] == s && more[Padded(|s|)..] == rest;
    if network {
      LengthMisread(|s|, more);
    }
  }

  lemma LengthMisread(n: nat, rest: Octets)
    requires n <= VALUE_MAX_LEN
    ensures TakeWord(Ordered(n, 4, true) + rest, 4, false).value.value ==
      n / 256 * 0x1_0000 + n % 256 * 0x100_0000
  {
    var s := Low(n, 4);
    assert s == [0, 0, n / 256, n % 256] by {
      assert Low(n, 4) == Low(n / 256, 3) + [n % 256] && Low(n / 256, 3) == Low(n / 256 / 256, 2) + [n / 256 % 256];
      assert n / 256 / 256 == 0 && n / 256 % 256 == n / 256;
      assert Low(0, 2) == [0, 0];
    }
    assert (s + rest)[..4] == s;
    FourOctets(0, 0, n / 256, n % 256);
  }

  /** What a binding may hold, and which bindings come back. */
  ghost predicate VarShaped(b: VarBind) {
    Fits32(b.oid) && |b.oid| <= OID_MAX_LEN && DataFits(b.tag, b.data)
  }

  ghost predicate VarComes(b: VarBind, network: bool) {
    Comes(b.oid, network) && DataComes(b.data, network)
  }

  lemma VarBack(b: VarBind, network: bool, rest: Octets)
    requires VarShaped(b)
    ensures var r := TakeVar(VarOctets(b, network) + rest, network);
      (r.Ok? ==> r.value.rest == rest) && (r.Ok? && r.value.value == b <==> VarComes(b, network))
  {
    hide TakeObject, TakeData, TakeWord, Ordered, ObjectOctets, DataOctets, Comes, DataFits, DataComes;
    var o, d := ObjectOctets(b.oid, false, network), DataOctets(b.data, network);
    var s := VarOctets(b, network) + rest;
    assert s == Ordered(b.tag, 2, network) + ([0, 0] + (o + (d + rest)));
    SmallPowers();
    TakeWordBack(b.tag, 2, network, [0, 0] + (o + (d + rest)));
    SkipTwo(o + (d + rest));
    ObjectBack(b.oid, false, network, 4 * OID_MAX_LEN, OidLength, d + rest);
    DataBack(b.tag, b.data, network, rest);
  }

  lemma SkipTwo(rest: Octets)
    ensures TakeWord([0, 0] + rest, 2, false).Ok? && TakeWord([0, 0] + rest, 2, false).value.rest == rest
  {
  }

  ghost predicate VarsCome(bs: seq<VarBind>, network: bool) {
    forall i :: 0 <= i < |bs| ==> VarComes(bs[i], network)
  }

  lemma {:induction false} VarsBack(bs: seq<VarBind>, network: bool)
    requires (forall i :: 0 <= i < |bs| ==> VarShaped(bs[i])) && |VarsOctets(bs, network)| < ID_MODULUS
    ensures TakeVars(VarsOctets(bs, network), |VarsOctets(bs, network)|, network) == Ok(bs) <==> VarsCome(bs, network)
  {
    hide VarOctets, TakeVar, TakeVars, Prepended, VarShaped, VarComes;
    if bs == [] {
      NoVars([], network);
    } else {
      var s, rest := VarsOctets(bs, network), VarsOctets(bs[1..], network);
      VarSize(bs[0], network);
      VarBack(bs[0], network, rest);
      VarsBack(bs[1..], network);
      VarsStep(s, |s|, network);
      if TakeVar(s, network).Ok? {
        PrependIs(bs, TakeVar(s, network).value.value, TakeVars(rest, |rest|, network));
      }
      assert VarsCome(bs, network) <==> VarComes(bs[0], network) && VarsCome(bs[1..], network) by {
        assert forall i :: 0 < i < |bs| ==> bs[i] == bs[1..][i - 1];
      }
    }
  }

  ghost predicate RangeShaped(r: Range) {
    Fits32(r.start) && |r.start| <= OID_MAX_LEN && Fits32(r.end) && |r.end| <= OID_MAX_LEN
  }

  ghost predicate RangeComes(r: Range, network: bool) {
    Comes(r.start, network) && Comes(r.end, network)
  }

  lemma RangeBack(r: Range, network: bool, rest: Octets)
    requires RangeShaped(r)
    ensures var x := TakeRange(RangeOctets(r, network) + rest);
      x.Ok? && x.value.rest == rest && (x.value.value == r <==> RangeComes(r, network))
  {
    hide TakeObject, ObjectOctets, Comes;
    var a, b := ObjectOctets(r.start, r.startIncluded, network), ObjectOctets(r.end, r.endIncluded, network);
    assert RangeOctets(r, network) + rest == a + (b + rest);
    ObjectBack(r.start, r.startIncluded, network, 4 * OID_MAX_LEN, OidLength, b + rest);
    ObjectBack(r.end, r.endIncluded, network, 4 * OID_MAX_LEN, OidLength, rest);
  }

  ghost predicate RangesCome(rs: seq<Range>, network: bool) {
    forall i :: 0 <= i < |rs| ==> RangeComes(rs[i], network)
  }

  lemma {:induction false} RangesBack(rs: seq<Range>, network: bool)
    requires (forall i :: 0 <= i < |rs| ==> RangeShaped(rs[i])) && |RangesOctets(rs, network)| < ID_MODULUS
    ensures TakeRanges(RangesOctets(rs, network), |RangesOctets(rs, network)|) == Ok(rs) <==> RangesCome(rs, network)
  {
    hide TakeRange, TakeRanges, Prepended, RangeShaped, RangeComes, ObjectOctets;
    if rs == [] {
      NoVars([], network);
    } else {
      var s, rest := RangesOctets(rs, network), RangesOctets(rs[1..], network);
      ObjectSize(rs[0].start, rs[0].startIncluded, network);
      RangeBack(rs[0], network, rest);
      RangesBack(rs[1..], network);
      RangesStep(s, |s|);
      PrependIs(rs, TakeRange(s).value.value, TakeRanges(rest, |rest|));
      assert RangesCome(rs, network) <==> RangeComes(rs[0], network) && RangesCome(rs[1..], network) by {
        assert forall i :: 0 < i < |rs| ==> rs[i] == rs[1..][i - 1];
      }
    }
  }

  predicate HeaderFits(h: Header) {
    h.session < ID_MODULUS && h.transaction < ID_MODULUS && h.packet < ID_MODULUS
  }

  lemma HeaderBack(h: Header, payload: nat, rest: Octets)
    requires HeaderFits(h) && payload < ID_MODULUS
    ensures TakeHeader(HeaderOctets(h, payload, Network(h.flags)) + rest) == Ok(Parsed((h, payload), rest))
  {
    hide Ordered, TakeWord, Network;
    SmallPowers();
    var net := Network(h.flags);
    var s := HeaderOctets(h, payload, net) + rest;
    var a, b := Ordered(h.session, 4, net), Ordered(h.transaction, 4, net);
    var c, d := Ordered(h.packet, 4, net), Ordered(payload, 4, net);
    assert s[4..] == a + (b + (c + (d + rest)));
    TakeWordBack(h.session, 4, net, b + (c + (d + rest)));
    TakeWordBack(h.transaction, 4, net, c + (d + rest));
    TakeWordBack(h.packet, 4, net, d + rest);
    TakeWordBack(payload, 4, net, rest);
  }

  /**
   The header of a response copies the flags of the request, and its words are written in the byte order of the
   machine: to a master that uses the other one it comes back if and only if its four words are symmetric.
   */
  lemma HeaderCopied(h: Header, payload: nat, rest: Octets)
    requires HeaderFits(h) && payload < ID_MODULUS
    ensures TakeHeader(HeaderOctets(h, payload) + rest) == Ok(Parsed((h, payload), rest)) <==>
      (Network(h.flags) ==>
        Symmetric(h.session, 4) && Symmetric(h.transaction, 4) && Symmetric(h.packet, 4) && Symmetric(payload, 4))
  {
    hide Ordered, TakeWord, Network, Symmetric;
    SmallPowers();
    var s := HeaderOctets(h, payload) + rest;
    var a, b := Ordered(h.session, 4, false), Ordered(h.transaction, 4, false);
    var c, d := Ordered(h.packet, 4, false), Ordered(payload, 4, false);
    assert s[4..] == a + (b + (c + (d + rest)));
    TakeWordBack(h.session, 4, false, b + (c + (d + rest)));
    TakeWordBack(h.transaction, 4, false, c + (d + rest));
    TakeWordBack(h.packet, 4, false, d + rest);
    TakeWordBack(payload, 4, false, rest);
  }

  lemma ContextBack(c: Octets, flags: byte, rest: Octets)
    requires |c| <= CONTEXT_MAX && (c != [] ==> HasContext(flags))
    ensures TakeContext(ContextOctets(c, flags) + rest, flags) == Ok(Parsed(c, rest))
  {
    hide Ordered, TakeWord, Network, HasContext, Symmetric, Pow256, Zeros, Padded;
    if HasContext(flags) {
      var more := c + (Zeros(Padded(|c|) - |c|) + rest);
      assert ContextOctets(c, flags) + rest == Ordered(|c|, 4, Network(flags)) + more;
      SmallPowers();
      TakeWordBack(|c|, 4, Network(flags), more);
      assert more[..|c|] == c && more[Padded(|c|)..] == rest;
    } else {
      assert [] + rest == rest;
    }
  }

  /** The fields in front of the payload that go with each kind of PDU (section 6.2 of RFC 2741). */
  predicate SpecialFits(kind: byte, x: Special) {
    match x
    case Plain => kind != 2 && kind != 7 && kind != 18
    case Close(_) => kind == 2
    case Bulk(a, b) => kind == 7 && a < 0x1_0000 && b < 0x1_0000
    case Outcome(t, e, i) => kind == 18 && t < ID_MODULUS && e < 0x1_0000 && i < 0x1_0000
  }

  lemma SpecialBack(kind: byte, x: Special, network: bool, rest: Octets)
    requires SpecialFits(kind, x)
    ensures TakeSpecial(SpecialOctets(x, network) + rest, kind, network) == Ok(Parsed(x, rest))
  {
    hide Ordered, TakeWord;
    SmallPowers();
    match x
    case Plain => assert [] + rest == rest;
    case Close(reason) =>
      assert ([reason, 0, 0, 0] + rest)[4..] == rest;
    case Bulk(a, b) =>
      var p, q := Ordered(a, 2, network), Ordered(b, 2, network);
      assert p + q + rest == p + (q + rest);
      TakeWordBack(a, 2, network, q + rest);
      TakeWordBack(b, 2, network, rest);
    case Outcome(t, e, i) =>
      var o, p, q := Ordered(t, 4, network), Ordered(e, 2, network), Ordered(i, 2, network);
      assert o + p + q + rest == o + (p + (q + rest));
      TakeWordBack(t, 4, network, p + (q + rest));
      TakeWordBack(e, 2, network, q + rest);
      TakeWordBack(i, 2, network, rest);
  }

  /** Searches carry ranges; updates and responses carry bindings; nothing else carries either. */
  ghost predicate PduFits(p: Pdu) {
    && HeaderFits(p.header) && |p.context| <= CONTEXT_MAX && (p.context != [] ==> HasContext(p.header.flags))
    && SpecialFits(p.header.kind, p.special)
    && (p.ranges != [] ==> p.header.kind == 5 || p.header.kind == 6 || p.header.kind == 7)
    && (p.vars != [] ==> p.header.kind == 8 || p.header.kind == 18)
    && (forall i :: 0 <= i < |p.ranges| ==> RangeShaped(p.ranges[i]))
    && (forall i :: 0 <= i < |p.vars| ==> VarShaped(p.vars[i]))
    && |Payload(p)| < ID_MODULUS
  }

  /**
   Any PDU of a master, of whatever kind, with or without a context, in either byte order: the decoder reads it as it
   was made if and only if every OID and value in it comes back.
   */
  lemma PduBack(p: Pdu)
    requires PduFits(p)
    ensures Decode(PduOctets(p)) == Ok(p) <==>
      RangesCome(p.ranges, Network(p.header.flags)) && VarsCome(p.vars, Network(p.header.flags))
  {
    hide HeaderOctets, TakeHeader, TakeRanges, TakeVars, RangesOctets, VarsOctets, ContextOctets, TakeContext;
    hide SpecialOctets, TakeSpecial, RangeShaped, VarShaped, SpecialFits, Network, HasContext, VarComes, RangeComes;
    var h, net := p.header, Network(p.header.flags);
    var body := RangesOctets(p.ranges, net) + VarsOctets(p.vars, net);
    HeaderBack(h, |Payload(p)|, Payload(p));
    ContextBack(p.context, h.flags, SpecialOctets(p.special, net) + body);
    SpecialBack(h.kind, p.special, net, body);
    RangesBack(p.ranges, net);
    VarsBack(p.vars, net);
    NothingCarried(net);
    assert p.vars == [] ==> body == RangesOctets(p.ranges, net);
    assert p.ranges == [] ==> body == VarsOctets(p.vars, net);
  }

  lemma NothingCarried(network: bool)
    ensures RangesOctets([], network) == [] && VarsOctets([], network) == []
  {
  }

  /** Words of the machine's byte order, and no context in front of the payload. */
  predicate PlainFlags(flags: byte) {
    !Network(flags) && !HasContext(flags)
  }

  ghost predicate VarFits(b: VarBind) {
    VarShaped(b) && VarComes(b, false)
  }

  /** A response is decoded to what it was made from, and its payload is used up exactly. */
  lemma ResponseBack(h: Header, error: nat, index: nat, bs: seq<VarBind>)
    requires HeaderFits(h) && PlainFlags(h.flags) && h.kind == 18 && error < 0x1_0000 && index < 0x1_0000
    requires forall i :: 0 <= i < |bs| ==> VarFits(bs[i])
    requires 8 + |VarsOctets(bs)| < ID_MODULUS
    ensures Decode(ResponseOctets(h, error, index, bs)) == Ok(Pdu(h, [], Outcome(0, error, index), bs, []))
    ensures (8 + |VarsOctets(bs)|) % 4 == 0
  {
    hide HeaderOctets, VarsOctets, Word, VarShaped, VarComes, Decode, Network, HasContext;
    var p := Pdu(h, [], Outcome(0, error, index), bs, []);
    var a, b, c := Word(0, 4), Word(error, 2), Word(index, 2);
    NothingCarried(false);
    assert [] + (a + b + c + ([] + VarsOctets(bs))) == a + b + c + VarsOctets(bs);
    PduBack(p);
    VarsSize(bs);
  }

  /** A query of the master, GET or GETNEXT, is decoded to its search ranges. */
  lemma QueryBack(h: Header, rs: seq<Range>)
    requires HeaderFits(h) && PlainFlags(h.flags) && (h.kind == 5 || h.kind == 6)
    requires |RangesOctets(rs)| < ID_MODULUS
    requires forall i :: 0 <= i < |rs| ==> RangeShaped(rs[i]) && RangeComes(rs[i], false)
    ensures Decode(HeaderOctets(h, |RangesOctets(rs)|) + RangesOctets(rs)) == Ok(Pdu(h, [], Plain, [], rs))
  {
    hide HeaderOctets, RangesOctets, RangeShaped, RangeComes, Decode, Network, HasContext;
    NothingCarried(false);
    assert [] + ([] + (RangesOctets(rs) + [])) == RangesOctets(rs);
    PduBack(Pdu(h, [], Plain, [], rs));
  }

  /** A GETBULK is decoded to its two counts and its search ranges. */
  lemma BulkBack(h: Header, nonRepeaters: nat, repetitions: nat, rs: seq<Range>)
    requires HeaderFits(h) && PlainFlags(h.flags) && h.kind == 7
    requires nonRepeaters < 0x1_0000 && repetitions < 0x1_0000 && 4 + |RangesOctets(rs)| < ID_MODULUS
    requires forall i :: 0 <= i < |rs| ==> RangeShaped(rs[i]) && RangeComes(rs[i], false)
    ensures Decode(HeaderOctets(h, 4 + |RangesOctets(rs)|) +
      (Word(nonRepeaters, 2) + Word(repetitions, 2) + RangesOctets(rs))) ==
      Ok(Pdu(h, [], Bulk(nonRepeaters, repetitions), [], rs))
  {
    hide HeaderOctets, RangesOctets, Word, RangeShaped, RangeComes, Decode, Network, HasContext;
    NothingCarried(false);
    var a, b := Word(nonRepeaters, 2), Word(repetitions, 2);
    assert [] + (a + b + (RangesOctets(rs) + [])) == a + b + RangesOctets(rs);
    PduBack(Pdu(h, [], Bulk(nonRepeaters, repetitions), [], rs));
  }
}
