/** Object identifiers on the wire (section 8.19 of X.690), and the values of variables by their tags. */
module BerOid {
  import opened Oids
  import opened Asn1
  import opened Ber

  /** Seven bits per octet, high ones first, each marked to be continued. */
  function Groups(n: nat): Octets {
    if n == 0 then [] else Groups(n / 128) + [128 + n % 128]
  }

  function Base128(id: nat): (s: Octets)
    ensures s != []
  {
    Groups(id / 128) + [id % 128]
  }

  function Subids(o: Oid): Octets {
    if o == [] then [] else Subids(o[..|o| - 1]) + Base128(o[|o| - 1])
  }

  /** The content octets; the first two sub-ids share one octet. */
  function OidOctets(o: Oid): (s: Octets)
    ensures s == [] <==> o == []
  {
    if o == [] then []
    else if |o| == 1 then [o[0] % 256]
    else [(o[0] * 40 + o[1]) % 256] + Subids(o[2..])
  }

  /** Sub-ids read so far, and the bits of the one being read. */
  datatype Reading = Reading(ids: Oid, id: nat)

  /** Seven more bits in a word of 32. */
  function Shift7(id: nat, b: byte): nat {
    (id * 128 + b % 128) % ID_MODULUS
  }

  function Absorb(r: Reading, b: byte): Reading {
    var id := Shift7(r.id, b);
    if b < 128 then Reading(r.ids + [id], 0) else Reading(r.ids, id)
  }

  function Read(s: Octets): Reading {
    if s == [] then Reading([], 0) else Absorb(Read(s[..|s| - 1]), s[|s| - 1])
  }

  /** The OID that content octets stand for. */
  function OidContent(s: Octets): (o: Oid)
    ensures s != [] ==> |o| >= 2
  {
    if s == [] then [] else [s[0] / 40, s[0] % 40] + Read(s[1..]).ids
  }

  lemma ReadSnoc(s: Octets, b: byte)
    ensures Read(s + [b]) == Absorb(Read(s), b)
  {
    assert (s + [b])[..|s|] == s;
  }

  /** Absorbing a marked or a last septet of `n` completes `n / 128` to `n`. */
  lemma AbsorbSeptet(ids: Oid, n: nat)
    requires n < ID_MODULUS
    ensures Absorb(Reading(ids, n / 128), 128 + n % 128) == Reading(ids, n)
    ensures Absorb(Reading(ids, n / 128), n % 128) == Reading(ids + [n], 0)
  {
  }

  lemma {:induction false} ReadGroups(s: Octets, n: nat)
    requires Read(s).id == 0 && n < ID_MODULUS
    ensures Read(s + Groups(n)) == Reading(Read(s).ids, n)
  {
    hide Read, Absorb;
    if n == 0 {
      assert s + Groups(n) == s;
    } else {
      ReadGroups(s, n / 128);
      assert s + Groups(n) == s + Groups(n / 128) + [128 + n % 128];
      ReadSnoc(s + Groups(n / 128), 128 + n % 128);
      AbsorbSeptet(Read(s).ids, n);
    }
  }

  lemma ReadBase128(s: Octets, id: nat)
    requires Read(s).id == 0 && id < ID_MODULUS
    ensures Read(s + Base128(id)) == Reading(Read(s).ids + [id], 0)
  {
    hide Read, Absorb, Groups;
    ReadGroups(s, id / 128);
    assert s + Base128(id) == s + Groups(id / 128) + [id % 128];
    ReadSnoc(s + Groups(id / 128), id % 128);
    AbsorbSeptet(Read(s).ids, id);
  }

  lemma {:induction false} ReadSubids(o: Oid)
    requires Fits32(o)
    ensures Read(Subids(o)) == Reading(o, 0)
  {
    if o != [] {
      var n := |o| - 1;
      ReadSubids(o[..n]);
      ReadBase128(Subids(o[..n]), o[n]);
      assert o == o[..n] + [o[n]];
    }
  }

  /** The shape of OIDs that survive: the first octet must hold both sub-ids. */
  predicate Encodable(o: Oid) {
    o == [] || (|o| >= 2 && o[1] < 40 && o[0] * 40 + o[1] < 256)
  }

  /** An OID comes back exactly when its first two sub-ids fit the first octet. */
  lemma OidRoundTrip(o: Oid)
    requires Fits32(o)
    ensures OidContent(OidOctets(o)) == o <==> Encodable(o)
  {
    hide Read, Subids;
    if |o| >= 2 {
      ReadSubids(o[2..]);
      var s := OidOctets(o);
      assert s[1..] == Subids(o[2..]);
      var r := OidContent(s);
      assert r[0] == s[0] / 40 && r[1] == s[0] % 40 && r[2..] == o[2..];
      assert r == r[..2] + r[2..] && o == o[..2] + o[2..];
      FirstOctet(o[0], o[1]);
    }
  }

  lemma FirstOctet(x: nat, y: nat)
    ensures var b := (x * 40 + y) % 256; b / 40 == x && b % 40 == y <==> y < 40 && x * 40 + y < 256
  {
  }

  /** 1.40 is written as 2.0, and a lone sub-id comes back as two. */
  lemma NotEncodable()
    ensures OidContent(OidOctets([1, 40])) == [2, 0] && OidContent(OidOctets([3])) == [0, 3]
  {
    assert [1, 40][2..] == [];
    assert OidOctets([1, 40]) == [80];
  }

  // ---------- The encoder's loops

  /** The octets of a sub-id, low ones first, all marked to be continued. */
  function Septets(n: nat): (s: Octets)
    ensures s != [] && s[0] == 128 + n % 128
  {
    [128 + n % 128] + if n / 128 == 0 then [] else Septets(n / 128)
  }

  function Reversed(s: Octets): (r: Octets)
    ensures |r| == |s|
  {
    if s == [] then [] else [s[|s| - 1]] + Reversed(s[..|s| - 1])
  }

  lemma {:induction false} ReversedCons(b: byte, s: Octets)
    ensures Reversed([b] + s) == Reversed(s) + [b]
  {
    if s == [] {
      assert [b] + s == [b];
      assert Reversed([b]) == [b] + Reversed([]);
    } else {
      var n := |s| - 1;
      assert ([b] + s)[..n + 1] == [b] + s[..n];
      ReversedCons(b, s[..n]);
    }
  }

  lemma {:induction false} SeptetsAreGroups(n: nat)
    requires n > 0
    ensures Reversed(Septets(n)) == Groups(n)
  {
    var s := if n / 128 == 0 then [] else Septets(n / 128);
    ReversedCons(128 + n % 128, s);
    if n / 128 > 0 {
      SeptetsAreGroups(n / 128);
    }
  }

  lemma FirstUnmarked(n: nat)
    ensures Reversed(Septets(n)[0 := n % 128]) == Base128(n)
  {
    var s := if n / 128 == 0 then [] else Septets(n / 128);
    assert Septets(n)[0 := n % 128] == [n % 128] + s;
    ReversedCons(n % 128, s);
    if n / 128 > 0 {
      SeptetsAreGroups(n / 128);
    }
  }

  lemma {:induction false} SeptetsFit(n: nat, k: nat)
    requires n < Pow128(k + 1)
    ensures |Septets(n)| <= k + 1
  {
    if k > 0 && n / 128 > 0 {
      SeptetsFit(n / 128, k - 1);
    }
  }

  function Pow128(k: nat): nat {
    if k == 0 then 1 else 128 * Pow128(k - 1)
  }

  function Marked(n: nat): byte {
    128 + n % 128
  }

  lemma SeptetsStep(n: nat)
    ensures Septets(n) == [Marked(n)] + if Drop7(n) == 0 then [] else Septets(Drop7(n))
  {
  }

  lemma FiveSeptets(n: nat)
    requires n < ID_MODULUS
    ensures 0 < |Septets(n)| <= 5
  {
    assert Pow128(5) > ID_MODULUS;
    SeptetsFit(n, 4);
  }

  /** Split a sub-id into marked septets in a scratch buffer of ten octets. */
  method Split(id0: nat, tmp: array<byte>) returns (k: nat)
    requires id0 < ID_MODULUS && tmp.Length == 10
    modifies tmp
    ensures 0 < k <= 10 && tmp[..k] == Septets(id0)
  {
    FiveSeptets(id0);
    hide Septets, Marked, Drop7, Splits;
    var id: nat, more := id0, true;
    ghost var done: Octets := [];
    SplitStarts(id0);
    k := 0;
    while more
      invariant |done| == k <= 5 && tmp[..k] == done
      invariant Splits(done, id, more, id0)
      decreases id, more
    {
      SplitStep(done, id, id0);
      Append(Marked(id), tmp, k);
      done := done + [Marked(id)];
      k := k + 1;
      id := Drop7(id);
      more := id != 0;
    }
    SplitEnds(done, id, id0);
  }

  /** The septets made so far and those of what is left make up the sub-id's. */
  ghost predicate Splits(done: Octets, id: nat, more: bool, id0: nat) {
    done + (if more then Septets(id) else []) == Septets(id0)
  }

  lemma SplitStarts(id0: nat)
    ensures Splits([], id0, true, id0)
  {
  }

  lemma SplitStep(done: Octets, id: nat, id0: nat)
    requires Splits(done, id, true, id0) && |Septets(id0)| <= 5
    ensures |done| < 5 && Splits(done + [Marked(id)], Drop7(id), Drop7(id) != 0, id0)
  {
    hide Septets;
    SeptetsStep(id);
    var rest := if Drop7(id) == 0 then [] else Septets(Drop7(id));
    assert done + Septets(id) == done + [Marked(id)] + rest;
    assert |done + Septets(id)| == |done| + |Septets(id)|;
  }

  lemma SplitEnds(done: Octets, id: nat, id0: nat)
    requires Splits(done, id, false, id0)
    ensures done == Septets(id0) && |done| > 0
  {
  }

  function Drop7(id: nat): (r: nat)
    ensures r <= id && (id > 0 ==> r < id)
  {
    id / 128
  }

  /** The septets of a sub-id, the last one unmarked, low ones first. */
  method Prepare(id: nat) returns (tmp: array<byte>, k: nat)
    requires id < ID_MODULUS
    ensures fresh(tmp) && 0 < k <= tmp.Length && Reversed(tmp[..k]) == Base128(id)
  {
    tmp := new byte[10];
    k := Split(id, tmp);
    ghost var split: Octets := tmp[..k];
    assert tmp[0] == split[0] == 128 + id % 128;
    FirstUnmarked(id);
    hide Septets, Base128;
    tmp[0] := tmp[0] - 128;
    assert tmp[..k] == split[0 := id % 128];
  }

  /** Write one sub-id. */
  method PutSubid(id: nat, buf: array<byte>, at: nat) returns (next: nat)
    requires id < ID_MODULUS && at + |Base128(id)| <= buf.Length
    modifies buf
    ensures next == at + |Base128(id)| && buf[..next] == old(buf[..at]) + Base128(id)
  {
    hide Base128;
    var tmp, k := Prepare(id);
    next := at;
    while k > 0
      invariant k <= tmp.Length && at <= next && next + k == at + |Base128(id)|
      invariant buf[..next] + Reversed(tmp[..k]) == old(buf[..at]) + Base128(id)
    {
      k := k - 1;
      assert tmp[..k + 1][..k] == tmp[..k];
      ghost var before := buf[..next];
      buf[next] := tmp[k];
      assert buf[..next + 1] == before + [tmp[k]];
      next := next + 1;
    }
  }

  /** What a counter of one byte shows. */
  function Low8(n: nat): byte {
    n % 256
  }

  lemma Low8Sum(a: nat, b: nat)
    ensures Low8(Low8(a) + b) == Low8(a + b)
  {
  }

  /** Count the octets of one sub-id in a counter of one byte. */
  method CountSubid(id: nat, from: byte) returns (j: byte)
    requires id < ID_MODULUS
    ensures j == Low8(from + |Base128(id)|)
  {
    var tmp, k := Prepare(id);
    ghost var n := k;
    assert n == |Base128(id)| && Low8(from) == from;
    hide Base128, Low8;
    j := from;
    while k > 0
      invariant k <= n && j == Low8(from + (n - k))
    {
      Low8Sum(from + (n - k), 1);
      j := Low8(j + 1);
      k := k - 1;
    }
  }

  lemma {:induction false} SubidsPrefix(o: Oid, k: nat)
    requires k <= |o|
    ensures |Subids(o[..k])| <= |Subids(o)|
  {
    if k < |o| {
      var n := |o| - 1;
      SubidsPrefix(o[..n], k);
      assert o[..n][..k] == o[..k];
    } else {
      assert o[..k] == o;
    }
  }

  lemma SubidsStep(o: Oid, i: nat)
    requires i < |o|
    ensures Subids(o[..i + 1]) == Subids(o[..i]) + Base128(o[i])
    ensures |Subids(o[..i + 1])| <= |Subids(o)|
  {
    assert o[..i + 1][..i] == o[..i];
    SubidsPrefix(o, i + 1);
  }

  /** Write the sub-ids after the first two. */
  method PutSubids(o: Oid, buf: array<byte>, at: nat) returns (next: nat)
    requires Fits32(o) && at + |Subids(o)| <= buf.Length
    modifies buf
    ensures next == at + |Subids(o)| && buf[..next] == old(buf[..at]) + Subids(o)
  {
    hide Base128, Subids;
    next := at;
    NoSubids();
    assert o[..0] == [];
    for i := 0 to |o|
      invariant next == at + |Subids(o[..i])| && next <= buf.Length
      invariant buf[..next] == old(buf[..at]) + Subids(o[..i])
    {
      SubidsStep(o, i);
      next := PutSubid(o[i], buf, next);
    }
    assert o[..|o|] == o;
  }

  lemma NoSubids()
    ensures Subids([]) == []
  {
  }

  /** Write the content octets of an OID. */
  method OidEnc(o: Oid, buf: array<byte>, at: nat) returns (next: nat)
    requires Fits32(o) && at + |OidOctets(o)| <= buf.Length
    modifies buf
    ensures next == at + |OidOctets(o)| && buf[..next] == old(buf[..at]) + OidOctets(o)
  {
    hide Subids;
    if |o| == 0 {
      return at;
    } else if |o| == 1 {
      buf[at] := o[0] % 256;
      return at + 1;
    }
    buf[at] := (o[0] * 40 + o[1]) % 256;
    next := PutSubids(o[2..], buf, at + 1);
  }

  method CountSubids(o: Oid, from: byte) returns (j: byte)
    requires Fits32(o)
    ensures j == Low8(from + |Subids(o)|)
  {
    NoSubids();
    assert o[..0] == [] && Low8(from) == from;
    hide Base128, Subids, Low8;
    j := from;
    for i := 0 to |o|
      invariant j == Low8(from + |Subids(o[..i])|)
    {
      SubidsStep(o, i);
      Low8Sum(from + |Subids(o[..i])|, |Base128(o[i])|);
      j := CountSubid(o[i], j);
    }
    assert o[..|o|] == o;
  }

  /** Predict the size of an OID in a counter of one byte. */
  method OidEncTry(o: Oid) returns (j: byte)
    requires Fits32(o) && |o| < 256
    ensures j == |OidOctets(o)| % 256 && (j == |OidOctets(o)| <==> |OidOctets(o)| < 256)
  {
    hide Subids;
    if |o| < 2 {
      return |o|;
    }
    j := CountSubids(o[2..], 1);
  }

  /** An OID of 64 sub-ids that outgrows the counter: it takes 311 octets, and 55 are predicted. */
  lemma LongOid()
    ensures var o := [1, 3] + seq(62, _ => 0x8000_0000);
      |o| == OID_MAX_LEN && Fits32(o) && |OidOctets(o)| == 311 && Low8(|OidOctets(o)|) == 55
  {
    var t := seq(62, _ => 0x8000_0000);
    var o := [1, 3] + t;
    assert o[2..] == t;
    FiveEach(62);
  }

  lemma {:induction false} FiveEach(n: nat)
    ensures |Subids(seq(n, _ => 0x8000_0000))| == 5 * n
  {
    if n > 0 {
      var o := seq(n, _ => 0x8000_0000);
      FiveEach(n - 1);
      assert o[..n - 1] == seq(n - 1, _ => 0x8000_0000);
      FiveOctets();
    }
  }

  lemma FiveOctets()
    ensures |Base128(0x8000_0000)| == 5
  {
    assert |Groups(0x800)| == 2 && |Groups(0x4_0000)| == 3 && |Groups(0x100_0000)| == 4;
  }

  // ---------- The decoder's loops

  /** Count the sub-ids before decoding them. */
  method OidDecTry(s: Octets) returns (j: nat)
    requires s != []
    ensures j == |OidContent(s)|
  {
    ReadNothing();
    assert s[1..1] == [];
    hide Read;
    j := 2;
    for i := 1 to |s|
      invariant j == 2 + |Read(s[1..i]).ids|
    {
      ReadStep(s, i);
      if s[i] < 128 {
        j := j + 1;
      }
    }
    assert s[1..|s|] == s[1..];
  }

  lemma ReadStep(s: Octets, i: nat)
    requires 1 <= i < |s|
    ensures Read(s[1..i + 1]) == Absorb(Read(s[1..i]), s[i])
  {
    assert s[1..i + 1] == s[1..i] + [s[i]];
    ReadSnoc(s[1..i], s[i]);
  }

  lemma ReadNothing()
    ensures Read([]) == Reading([], 0)
  {
  }

  method OidDec(s: Octets, oid: array<nat>) returns (j: nat)
    requires s != [] && |OidContent(s)| <= oid.Length
    modifies oid
    ensures j == |OidContent(s)| && oid[..j] == OidContent(s)
  {
    oid[0], oid[1] := s[0] / 40, s[0] % 40;
    assert oid[..2] == [s[0] / 40, s[0] % 40];
    j := ReadIds(s, oid);
  }

  /** Decode the sub-ids after the first two. */
  method ReadIds(s: Octets, oid: array<nat>) returns (j: nat)
    requires s != [] && 2 + |Read(s[1..]).ids| <= oid.Length
    modifies oid
    ensures j == 2 + |Read(s[1..]).ids| && oid[..j] == old(oid[..2]) + Read(s[1..]).ids
  {
    ReadNothing();
    assert s[1..1] == [];
    hide Read, Absorb, Shift7, OidContent;
    var id := 0;
    j := 2;
    for i := 1 to |s|
      invariant Read(s[1..i]).id == id && 2 <= j <= oid.Length
      invariant oid[..j] == old(oid[..2]) + Read(s[1..i]).ids
    {
      ReadStep(s, i);
      ReadGrows(s, i + 1);
      AbsorbIs(Read(s[1..i]), s[i]);
      id := Shift7(id, s[i]);
      if s[i] < 128 {
        AppendId(id, oid, j);
        j := j + 1;
        id := 0;
      }
    }
    assert s[1..|s|] == s[1..];
  }

  method AppendId(id: nat, oid: array<nat>, j: nat)
    requires j < oid.Length
    modifies oid
    ensures oid[..j + 1] == old(oid[..j]) + [id]
  {
    oid[j] := id;
  }

  lemma AbsorbIs(r: Reading, b: byte)
    ensures Absorb(r, b) == if b < 128 then Reading(r.ids + [Shift7(r.id, b)], 0) else Reading(r.ids, Shift7(r.id, b))
  {
  }

  lemma {:induction false} ReadGrows(s: Octets, i: nat)
    requires 1 <= i <= |s|
    ensures |Read(s[1..i]).ids| <= |Read(s[1..]).ids|
    decreases |s| - i
  {
    if i < |s| {
      ReadStep(s, i);
      ReadGrows(s, i + 1);
    } else {
      assert s[1..i] == s[1..];
    }
  }
}
