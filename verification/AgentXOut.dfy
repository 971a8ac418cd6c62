/** The AgentX response in two passes: the length is summed up, then a cleared buffer of that length is filled. */
module AgentXOut {
  import opened Oids
  import opened Asn1
  import opened Ber
  import opened Parsing
  import opened AgentX

  /** Nothing has been written from `at` on. */
  ghost predicate Clear(buf: Octets, at: nat) {
    at <= |buf| && forall i :: at <= i < |buf| ==> buf[i] == 0
  }

  /** Store octets at the cursor and move it past them and `skip` more. */
  method Store(s: Octets, skip: nat, buf: array<byte>, at: nat) returns (next: nat)
    requires Clear(buf[..], at) && at + |s| + skip <= buf.Length
    modifies buf
    ensures next == at + |s| + skip && Clear(buf[..], next)
    ensures buf[..next] == old(buf[..at]) + s + Zeros(skip)
  {
    forall i | 0 <= i < |s| {
      buf[at + i] := s[i];
    }
    next := at + |s| + skip;
  }

  /** What the first pass adds for an OID. */
  method ObjectLength(n: nat) returns (len: nat)
    ensures forall o: Oid, x :: |o| == n ==> len == |ObjectOctets(o, x)|
  {
    len := if n > 5 then 4 + (n - 5) * 4 else 4;
  }

  /** What the first pass adds for a value. */
  method DataLength(d: Data) returns (len: nat)
    ensures len == |DataOctets(d)|
  {
    match d
    case Long(_) => len := 4;
    case LongLong(_) => len := 8;
    case Text(s) => len := 4 + Padded(|s|);
    case Object(o) =>
      var bytes := |o| * 4;
      ObjectSize(o, false);
      len := if bytes > 20 then 4 + bytes - 20 else 4;
    case Nothing => len := 0;
  }

  /** The first pass. */
  method Length(bs: seq<VarBind>) returns (len: nat)
    ensures len == 28 + |VarsOctets(bs)|
  {
    len := 20 + 4 + 2 * 2;
    for i := 0 to |bs|
      invariant len + |VarsOctets(bs[i..])| == 28 + |VarsOctets(bs)|
    {
      assert bs[i..][1..] == bs[i + 1..];
      var b := bs[i];
      var o := ObjectLength(|b.oid|);
      assert o == |ObjectOctets(b.oid, false)|;
      var d := DataLength(b.data);
      len := len + 4 + o + d;
    }
  }

  /** Write an OID. */
  method PutObject(o: Oid, buf: array<byte>, at: nat) returns (next: nat)
    requires Clear(buf[..], at) && at + |ObjectOctets(o, false)| <= buf.Length
    modifies buf
    ensures next == at + |ObjectOctets(o, false)| && Clear(buf[..], next)
    ensures buf[..next] == old(buf[..at]) + ObjectOctets(o, false)
  {
    hide Word;
    ObjectSize(o, false);
    var t := Tail(o);
    var head := [|t| % 256, if |o| > 4 then o[4] % 256 else 0];
    next := Store(head, 2, buf, at);
    ghost var front := old(buf[..at]) + head + Zeros(2);
    for i := 0 to |t|
      invariant next == at + 4 + 4 * i && Clear(buf[..], next)
      invariant buf[..next] + Words(t[i..]) == front + Words(t)
    {
      ghost var before := buf[..next];
      assert t[i..][1..] == t[i + 1..];
      assert before + (Word(t[i], 4) + Words(t[i + 1..])) == before + Word(t[i], 4) + Zeros(0) + Words(t[i + 1..]);
      next := Store(Word(t[i], 4), 0, buf, next);
    }
    assert front + Words(t) == old(buf[..at]) + ObjectOctets(o, false) by {
      assert head + Zeros(2) == [head[0], head[1], 0, 0];
    }
  }

  method PutText(s: Octets, buf: array<byte>, at: nat) returns (next: nat)
    requires Clear(buf[..], at) && at + |DataOctets(Text(s))| <= buf.Length
    modifies buf
    ensures next == at + |DataOctets(Text(s))| && Clear(buf[..], next)
    ensures buf[..next] == old(buf[..at]) + DataOctets(Text(s))
  {
    hide Clear, Word;
    next := Store(Word(|s|, 4), 0, buf, at);
    next := Store(s, Padded(|s|) - |s|, buf, next);
  }

  /** Write a value. */
  method PutData(d: Data, buf: array<byte>, at: nat) returns (next: nat)
    requires Clear(buf[..], at) && at + |DataOctets(d)| <= buf.Length
    modifies buf
    ensures next == at + |DataOctets(d)| && Clear(buf[..], next)
    ensures buf[..next] == old(buf[..at]) + DataOctets(d)
  {
    hide Clear, Word, ObjectOctets;
    match d
    case Long(n) => next := Store(Word(n, 4), 0, buf, at);
    case LongLong(n) => next := Store(Word(n, 8), 0, buf, at);
    case Text(s) => next := PutText(s, buf, at);
    case Object(o) => next := PutObject(o, buf, at);
    case Nothing => next := at;
  }

  /** Write a binding. */
  method PutVar(b: VarBind, buf: array<byte>, at: nat) returns (next: nat)
    requires Clear(buf[..], at) && at + |VarOctets(b)| <= buf.Length
    modifies buf
    ensures next == at + |VarOctets(b)| && Clear(buf[..], next)
    ensures buf[..next] == old(buf[..at]) + VarOctets(b)
  {
    hide Clear, Word, ObjectOctets, DataOctets;
    ghost var p := buf[..at];
    next := Store(Word(b.tag, 2), 2, buf, at);
    next := PutObject(b.oid, buf, next);
    next := PutData(b.data, buf, next);
    ghost var o, d := ObjectOctets(b.oid, false), DataOctets(b.data);
    assert Zeros(2) == [0, 0];
    assert p + Word(b.tag, 2) + Zeros(2) + o + d == p + (Word(b.tag, 2) + [0, 0] + o + d);
  }

  /** The fixed header. */
  method PutHeader(h: Header, payload: nat, buf: array<byte>) returns (next: nat)
    requires Clear(buf[..], 0) && buf.Length >= 20
    modifies buf
    ensures next == 20 && Clear(buf[..], next) && buf[..next] == HeaderOctets(h, payload)
  {
    hide Clear, Word, Zeros;
    assert Zeros(0) == [];
    ghost var k := [h.version, h.kind, h.flags, 0];
    ghost var a, b, c, d := Word(h.session, 4), Word(h.transaction, 4), Word(h.packet, 4), Word(payload, 4);
    assert buf[..0] == [];
    next := Store([h.version, h.kind, h.flags], 1, buf, 0);
    assert buf[..next] == k;
    next := Store(Word(h.session, 4), 0, buf, next);
    next := Store(Word(h.transaction, 4), 0, buf, next);
    next := Store(Word(h.packet, 4), 0, buf, next);
    next := Store(Word(payload, 4), 0, buf, next);
    assert buf[..next] == k + a + b + c + d;
  }

  /** The header and the fields in front of the bindings. */
  method PutStart(h: Header, error: nat, index: nat, payload: nat, buf: array<byte>) returns (next: nat)
    requires Clear(buf[..], 0) && buf.Length >= 28
    modifies buf
    ensures next == 28 && Clear(buf[..], next)
    ensures buf[..next] == HeaderOctets(h, payload) + (Word(0, 4) + Word(error, 2) + Word(index, 2))
  {
    hide Clear, Word, Zeros, HeaderOctets;
    assert Zeros(0) == [];
    ZeroWord(0, 4);
    next := PutHeader(h, payload, buf);
    next := Store([], 4, buf, next);
    next := Store(Word(error, 2), 0, buf, next);
    next := Store(Word(index, 2), 0, buf, next);
    ghost var s, e, f := HeaderOctets(h, payload), Word(error, 2), Word(index, 2);
    assert s + [] + Zeros(4) + e + [] + f + [] == s + (Zeros(4) + e + f);
  }

  lemma {:induction false} ZeroWord(n: nat, k: nat)
    requires n == 0
    ensures Word(n, k) == Zeros(k)
    decreases k
  {
    if k > 0 {
      ZeroWord(n / 256, k - 1);
    }
  }

  ghost predicate AllFit(bs: seq<VarBind>) {
    forall i :: 0 <= i < |bs| ==> VarFits(bs[i])
  }

  /**
   The response PDU. The write pass ends where the first pass said, and whoever decodes the PDU finds the same
   error, index and bindings in a payload of whole words.
   */
  method ResponsePdu(h: Header, error: nat, index: nat, bs: seq<VarBind>) returns (buf: array<byte>)
    requires error < 0x1_0000 && index < 0x1_0000
    ensures buf[..] == ResponseOctets(h.(kind := PDU_RESPONSE), error, index, bs)
    ensures buf.Length == 28 + |VarsOctets(bs)| && (buf.Length - 20) % 4 == 0
    ensures HeaderFits(h) && PlainFlags(h.flags) && AllFit(bs) && buf.Length - 20 < ID_MODULUS ==>
      Decode(buf[..]) == Ok(Pdu(h.(kind := PDU_RESPONSE), [], Outcome(0, error, index), bs, []))
  {
    hide HeaderOctets, Word, VarsOctets, VarFits, Decode;
    var len := Length(bs);
    buf := new byte[len](_ => 0);
    ghost var h' := h.(kind := PDU_RESPONSE);
    VarsSize(bs);
    if HeaderFits(h) && PlainFlags(h.flags) && AllFit(bs) && len - 20 < ID_MODULUS {
      ResponseBack(h', error, index, bs);
    }
    var next := PutStart(h.(kind := PDU_RESPONSE), error, index, len - 20, buf);
    ghost var start := buf[..next];
    next := PutVars(bs, buf, next);
    assert buf[..] == buf[..next];
    assert start + VarsOctets(bs) == ResponseOctets(h', error, index, bs);
  }

  /** Write all bindings. */
  method PutVars(bs: seq<VarBind>, buf: array<byte>, at: nat) returns (next: nat)
    requires Clear(buf[..], at) && at + |VarsOctets(bs)| <= buf.Length
    modifies buf
    ensures next == at + |VarsOctets(bs)| && buf[..next] == old(buf[..at]) + VarsOctets(bs)
  {
    hide VarOctets;
    next := at;
    for i := 0 to |bs|
      invariant next + |VarsOctets(bs[i..])| == at + |VarsOctets(bs)| && next <= buf.Length && Clear(buf[..], next)
      invariant buf[..next] + VarsOctets(bs[i..]) == old(buf[..at]) + VarsOctets(bs)
    {
      ghost var before := buf[..next];
      ghost var rest := bs[i + 1..];
      assert bs[i..][1..] == rest;
      assert before + (VarOctets(bs[i]) + VarsOctets(rest)) == before + VarOctets(bs[i]) + VarsOctets(rest);
      next := PutVar(bs[i], buf, next);
    }
  }
}
