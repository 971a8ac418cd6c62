/**
 The basic encoding rules as the agent uses them: integers in two's complement (section 8.3 of X.690), lengths
 (section 8.1.3) and object identifiers (section 8.19), with the byte loops that write and read them.
 */
module Ber {
  import opened Oids
  import opened Asn1

  type Octets = seq<byte>

  /** The number written in base 256, most significant octet first. */
  function Num(s: Octets): nat {
    if s == [] then 0 else Num(s[..|s| - 1]) * 256 + s[|s| - 1]
  }

  function Pow256(n: nat): nat {
    if n == 0 then 1 else 256 * Pow256(n - 1)
  }

  /** The two's complement number of the octets. */
  function Signed(s: Octets): int {
    if s != [] && s[0] >= 128 then Num(s) - Pow256(|s|) else Num(s)
  }

  predicate InByte(v: int) {
    -128 <= v < 128
  }

  /** The content octets of an integer. */
  function IntOctets(v: int): Octets
    decreases if v < 0 then -v else v
  {
    if InByte(v) then [v % 256] else IntOctets(v / 256) + [v % 256]
  }

  /** The first nine bits are neither all zero nor all one. */
  predicate Minimal(s: Octets) {
    s != [] && (|s| > 1 ==> !(s[0] == 0 && s[1] < 128) && !(s[0] == 255 && s[1] >= 128))
  }

  lemma NumSnoc(s: Octets, b: byte)
    ensures Num(s + [b]) == Num(s) * 256 + b
  {
    assert (s + [b])[..|s|] == s;
  }

  lemma SignedSnoc(s: Octets, b: byte)
    requires s != []
    ensures Signed(s + [b]) == Signed(s) * 256 + b
  {
    NumSnoc(s, b);
    assert (s + [b])[0] == s[0];
  }

  lemma {:induction false} IntOctetsMeaning(v: int)
    ensures Signed(IntOctets(v)) == v && Minimal(IntOctets(v))
    decreases if v < 0 then -v else v
  {
    if !InByte(v) {
      IntOctetsMeaning(v / 256);
      var s := IntOctets(v / 256);
      SignedSnoc(s, v % 256);
      if |s| == 1 {
        OneOctet(s[0]);
      }
    } else {
      OneOctet(v % 256);
    }
  }

  lemma OneOctet(b: byte)
    ensures Signed([b]) == if b >= 128 then b as int - 256 else b
  {
    NumSnoc([], b);
    assert [] + [b] == [b];
    assert Pow256(1) == 256;
  }

  /** There is exactly one minimal encoding of each number. */
  lemma {:induction false} MinimalIsUnique(s: Octets)
    requires Minimal(s)
    ensures s == IntOctets(Signed(s))
  {
    var n := |s| - 1;
    var p, b := s[..n], s[n];
    assert s == p + [b];
    if n == 0 {
      OneOctet(b);
    } else {
      MinimalIsUnique(p);
      SignedSnoc(p, b);
      assert IntOctets(0) == [0] && IntOctets(-1) == [255];
      hide Signed;
      LastOctet(Signed(p), b);
    }
  }

  lemma LastOctet(p: int, b: byte)
    ensures var v := p * 256 + b;
      v / 256 == p && v % 256 == b && (InByte(v) <==> (p == 0 && b < 128) || (p == -1 && b >= 128))
  {
  }

  /** The number without its `k` low octets. */
  function Shift(v: int, k: nat): int
    decreases k
  {
    if k == 0 then v else Shift(v / 256, k - 1)
  }

  lemma {:induction false} ShiftStep(v: int, k: nat)
    ensures Shift(v, k + 1) == Shift(v, k) / 256
    decreases k
  {
    if k > 0 {
      ShiftStep(v / 256, k - 1);
    }
  }

  lemma {:induction false} ShiftInByte(v: int, k: nat)
    requires InByte(v)
    ensures InByte(Shift(v, k))
    decreases k
  {
    if k > 0 {
      ShiftInByte(v / 256, k - 1);
    }
  }

  /** The `k` low octets, most significant first. */
  function Low(v: int, k: nat): (s: Octets)
    ensures |s| == k
    decreases k
  {
    if k == 0 then [] else Low(v / 256, k - 1) + [v % 256]
  }

  lemma {:induction false} LowCons(v: int, k: nat)
    ensures Low(v, k + 1) == [Shift(v, k) % 256] + Low(v, k)
    decreases k
  {
    if k > 0 {
      LowCons(v / 256, k - 1);
    }
  }

  lemma {:induction false} IntOctetsLow(v: int, k: nat)
    requires k >= 1 && InByte(Shift(v, k - 1)) && (k >= 2 ==> !InByte(Shift(v, k - 2)))
    ensures IntOctets(v) == Low(v, k)
    decreases k
  {
    if k == 1 {
      assert Low(v / 256, 0) == [];
    } else {
      if InByte(v) {
        ShiftInByte(v, k - 2);
      }
      IntOctetsLow(v / 256, k - 1);
    }
  }

  /** The bytes of a 32-bit word in memory, the low one first. */
  function Memory(v: int): (a: Octets)
    ensures |a| == 4
  {
    seq(4, k requires 0 <= k < 4 => Shift(v, k) % 256)
  }

  predicate Int32(v: int) {
    -ID_HALF <= v < ID_HALF
  }

  predicate Uint32(v: int) {
    0 <= v < ID_MODULUS
  }

  lemma Shift4(v: int)
    ensures 0 <= v < ID_MODULUS ==> Shift(v, 4) == 0
    ensures -ID_MODULUS <= v < 0 ==> Shift(v, 4) == -1
  {
    ShiftStep(v, 0);
    ShiftStep(v, 1);
    ShiftStep(v, 2);
    ShiftStep(v, 3);
  }

  /** Skip the high bytes that only repeat `fill`, keeping at least one. */
  method SkipFill(v: int, fill: byte) returns (i: nat)
    requires (fill == 0 && 0 <= v < ID_MODULUS) || (fill == 255 && -ID_MODULUS <= v < 0)
    ensures i <= 3 && Shift(v, i + 1) == (if fill == 0 then 0 else -1)
    ensures i > 0 ==> Shift(v, i) != if fill == 0 then 0 else -1
  {
    var a := Memory(v);
    i := 3;
    Shift4(v);
    while i > 0 && a[i] == fill
      invariant i <= 3 && Shift(v, i + 1) == if fill == 0 then 0 else -1
    {
      ShiftStep(v, i);
      i := i - 1;
    }
    ShiftStep(v, i);
  }

  /** The number of content octets from the highest byte kept and the sign octet in front of it. */
  lemma SizeFrom(v: int, i: nat, top: byte)
    requires Shift(v, i + 1) == if v >= 0 then 0 else -1
    requires i > 0 ==> Shift(v, i) != if v >= 0 then 0 else -1
    requires top == Shift(v, i) % 256
    ensures IntOctets(v) == Low(v, if (v >= 0) == (top < 128) then i + 1 else i + 2)
  {
    ShiftStep(v, i);
    if i > 0 {
      ShiftStep(v, i - 1);
    }
    ShiftStep(v, i + 1);
    IntOctetsLow(v, if (v >= 0) == (top < 128) then i + 1 else i + 2);
  }

  /** Predict the size of a signed integer. */
  method IntEncTry(value: int) returns (len: nat)
    requires Int32(value)
    ensures len == |IntOctets(value)|
  {
    var a := Memory(value);
    var i;
    len := 0;
    if value >= 0 {
      i := SkipFill(value, 0);
      if a[i] >= 128 {
        len := len + 1;
      }
    } else {
      i := SkipFill(value, 255);
      if a[i] < 128 {
        len := len + 1;
      }
    }
    SizeFrom(value, i, a[i]);
    len := len + i + 1;
  }

  /** Predict the size of an unsigned integer. */
  method UintEncTry(value: nat) returns (len: nat)
    requires Uint32(value)
    ensures len == |IntOctets(value)|
  {
    var a := Memory(value);
    var i := SkipFill(value, 0);
    len := if a[i] >= 128 then 1 else 0;
    SizeFrom(value, i, a[i]);
    len := len + i + 1;
  }

  /** Write the bytes from `top` down to the lowest. */
  method WriteDown(v: int, top: nat, buf: array<byte>, at: nat) returns (next: nat)
    requires top <= 3 && at + top + 1 <= buf.Length
    modifies buf
    ensures next == at + top + 1 && buf[..next] == old(buf[..at]) + Low(v, top + 1)
  {
    hide Memory, Low, Shift;
    var a := Memory(v);
    var i: nat := top + 1;
    next := at;
    NoLow(v);
    while i > 0
      invariant i <= top + 1 && at <= next && next == at + top + 1 - i
      invariant buf[..next] + Low(v, i) == old(buf[..at]) + Low(v, top + 1)
    {
      LowCons(v, i - 1);
      MemoryAt(v, i - 1);
      Append(a[i - 1], buf, next);
      next, i := next + 1, i - 1;
    }
  }

  lemma NoLow(v: int)
    ensures Low(v, 0) == []
  {
  }

  method Append(b: byte, buf: array<byte>, at: nat)
    requires at < buf.Length
    modifies buf
    ensures buf[..at + 1] == old(buf[..at]) + [b]
  {
    buf[at] := b;
  }

  lemma MemoryAt(v: int, i: nat)
    requires i <= 3
    ensures Memory(v)[i] == Shift(v, i) % 256
  {
  }

  /** The sign octet, where one is needed, is the octet above the highest byte kept. */
  lemma SignAbove(v: int, i: nat)
    requires Shift(v, i + 1) == if v >= 0 then 0 else -1
    ensures Low(v, i + 2) == [if v >= 0 then 0 else 255] + Low(v, i + 1)
  {
    LowCons(v, i + 1);
  }

  /** Write the sign octet, if there is to be one, and the bytes from `top` down. */
  method WriteSigned(v: int, top: nat, sign: bool, buf: array<byte>, at: nat) returns (next: nat)
    requires top <= 3 && Shift(v, top + 1) == if v >= 0 then 0 else -1
    requires at + (if sign then top + 2 else top + 1) <= buf.Length
    modifies buf
    ensures next == at + (if sign then top + 2 else top + 1)
    ensures buf[..next] == old(buf[..at]) + Low(v, if sign then top + 2 else top + 1)
  {
    hide Low, Shift;
    SignAbove(v, top);
    next := at;
    if sign {
      buf[next] := if v >= 0 then 0 else 255;
      next := next + 1;
    }
    next := WriteDown(v, top, buf, next);
  }

  /** Write a signed integer. */
  method IntEnc(value: int, buf: array<byte>, at: nat) returns (next: nat)
    requires Int32(value) && at + |IntOctets(value)| <= buf.Length
    modifies buf
    ensures buf[..at + |IntOctets(value)|] == old(buf[..at]) + IntOctets(value)
    ensures next == at + |IntOctets(value)|
  {
    hide IntOctets, Low, Shift, Memory;
    var a := Memory(value);
    var i := SkipFill(value, if value >= 0 then 0 else 255);
    MemoryAt(value, i);
    SizeFrom(value, i, a[i]);
    next := WriteSigned(value, i, if value >= 0 then a[i] >= 128 else a[i] < 128, buf, at);
  }

  /** Write an unsigned integer. */
  method UintEnc(value: nat, buf: array<byte>, at: nat) returns (next: nat)
    requires Uint32(value) && at + |IntOctets(value)| <= buf.Length
    modifies buf
    ensures buf[..at + |IntOctets(value)|] == old(buf[..at]) + IntOctets(value)
    ensures next == at + |IntOctets(value)|
  {
    hide IntOctets, Low, Shift, Memory;
    var a := Memory(value);
    var i := SkipFill(value, 0);
    MemoryAt(value, i);
    SizeFrom(value, i, a[i]);
    next := WriteSigned(value, i, a[i] >= 128, buf, at);
  }

  /** The 32-bit signed number that agrees with `v` modulo 2^32. */
  function Wrap(v: int): int {
    (v + ID_HALF) % ID_MODULUS - ID_HALF
  }

  /** One step of an accumulator of 32 bits. */
  function Accumulate(v: nat, b: byte): nat {
    (v * 256 + b) % ID_MODULUS
  }

  /** Read a big-endian number into a 32-bit accumulator that holds `from`. */
  method ReadUp(s: Octets, start: nat, from: nat) returns (v: nat)
    requires start <= |s|
    ensures v == Through(from, s[start..])
  {
    var i := start;
    v := from;
    while i < |s|
      invariant start <= i <= |s| && v == Through(from, s[start..i])
    {
      assert s[start..i + 1] == s[start..i] + [s[i]];
      ThroughSnoc(from, s[start..i], s[i]);
      v := Accumulate(v, s[i]);
      i := i + 1;
    }
    assert s[start..i] == s[start..];
  }

  function Through(v: nat, s: Octets): nat {
    if s == [] then v else Accumulate(Through(v, s[..|s| - 1]), s[|s| - 1])
  }

  lemma ThroughSnoc(v: nat, s: Octets, b: byte)
    ensures Through(v, s + [b]) == Accumulate(Through(v, s), b)
  {
    assert (s + [b])[..|s|] == s;
  }

  /** What the accumulator holds in the end, modulo 2^32. */
  lemma {:induction false} ThroughIsNum(v: nat, s: Octets)
    requires v < ID_MODULUS
    ensures Through(v, s) == (v * Pow256(|s|) + Num(s)) % ID_MODULUS
  {
    if s != [] {
      var n := |s| - 1;
      ThroughIsNum(v, s[..n]);
      var w := v * Pow256(n) + Num(s[..n]);
      Distribute(v, Pow256(n), Num(s[..n]));
      hide Accumulate;
      AccumulateMod(w, s[n]);
    }
  }

  lemma Distribute(v: nat, p: nat, m: nat)
    ensures (v * p + m) * 256 == v * (256 * p) + m * 256
  {
  }

  lemma AccumulateMod(w: nat, b: byte)
    ensures Accumulate(w % ID_MODULUS, b) == (w * 256 + b) % ID_MODULUS
  {
    ModStep(w, b);
  }

  lemma ModStep(w: nat, b: byte)
    ensures ((w % ID_MODULUS) * 256 + b) % ID_MODULUS == (w * 256 + b) % ID_MODULUS
  {
    var q := w / ID_MODULUS;
    assert w * 256 + b == (w % ID_MODULUS) * 256 + b + ID_MODULUS * (q * 256);
    ModAdd((w % ID_MODULUS) * 256 + b, q * 256);
  }

  lemma {:induction false} ModAdd(x: nat, k: nat)
    ensures (x + ID_MODULUS * k) % ID_MODULUS == x % ID_MODULUS
  {
    if k > 0 {
      ModAdd(x, k - 1);
    }
  }

  lemma {:induction false} LeadingZero(s: Octets)
    requires s != [] && s[0] == 0
    ensures Num(s) == Num(s[1..])
  {
    if |s| > 1 {
      var n := |s| - 1;
      LeadingZero(s[..n]);
      assert s[1..] == s[..n][1..] + [s[n]];
      NumSnoc(s[..n][1..], s[n]);
    }
  }

  /** Read a signed integer; more than four octets with the sign bit set would fill in the sign for ever. */
  method IntDec(s: Octets) returns (v: int)
    requires s != [] && (s[0] >= 128 ==> |s| <= 4)
    ensures v == Wrap(Signed(s))
  {
    var acc: nat, i := 0, 0;
    if s[0] >= 128 {
      var j := 0;
      while j < 4 - |s|
        invariant j <= 4 - |s| && acc == Pow256(j) - 1 && acc < ID_MODULUS
      {
        SmallPowers();
        acc := Accumulate(acc, 255);
        j := j + 1;
      }
      SmallPowers();
    } else if s[0] == 0 {
      i := 1;
      LeadingZero(s);
    }
    ThroughIsNum(acc, s[i..]);
    SignFilled(s);
    acc := ReadUp(s, i, acc);
    v := Wrap(acc);
  }

  lemma SmallPowers()
    ensures Pow256(0) == 1 && Pow256(1) == 256 && Pow256(2) == 0x1_0000 && Pow256(3) == 0x100_0000
      && Pow256(4) == ID_MODULUS
  {
  }

  lemma SignFilled(s: Octets)
    requires s != [] && (s[0] >= 128 ==> |s| <= 4)
    ensures s[0] >= 128 ==> Wrap(((Pow256(4 - |s|) - 1) * Pow256(|s|) + Num(s)) % ID_MODULUS) == Wrap(Signed(s))
    ensures Wrap(Num(s) % ID_MODULUS) == Wrap(Num(s))
  {
    hide Wrap, Num, Pow256;
    WrapMod(Num(s));
    if s[0] >= 128 {
      FillAbove(|s|);
      WrapMod(ID_MODULUS + Signed(s));
      WrapMod(Signed(s));
    }
  }

  lemma FillAbove(n: nat)
    requires 1 <= n <= 4
    ensures (Pow256(4 - n) - 1) * Pow256(n) == ID_MODULUS - Pow256(n)
  {
    SmallPowers();
    if n == 1 {
    } else if n == 2 {
    } else if n == 3 {
    }
  }

  lemma WrapMod(x: int)
    ensures Wrap(x % ID_MODULUS) == Wrap(x) && Wrap(ID_MODULUS + x) == Wrap(x)
  {
  }

  /** Read an unsigned integer. */
  method UintDec(s: Octets) returns (v: nat)
    requires s != []
    ensures v == Num(s) % ID_MODULUS
  {
    var i := if s[0] == 0 then 1 else 0;
    if s[0] == 0 {
      LeadingZero(s);
    }
    ThroughIsNum(0, s[i..]);
    v := ReadUp(s, i, 0);
  }

  /** Integers come back: the content octets of a 32-bit number are decoded to that number. */
  lemma IntRoundTrip(v: int)
    ensures Int32(v) ==> Wrap(Signed(IntOctets(v))) == v && |IntOctets(v)| <= 4
    ensures Uint32(v) ==> Num(IntOctets(v)) % ID_MODULUS == v && |IntOctets(v)| <= 5
  {
    IntOctetsMeaning(v);
    SignOctet(v);
    SmallPowers();
    hide IntOctets, Num, Pow256;
    if Int32(v) {
      IntOctetsSize(v, 3);
    }
    if Uint32(v) {
      IntOctetsSize(v, 4);
    }
  }

  lemma {:induction false} IntOctetsSize(v: int, k: nat)
    requires -128 * Pow256(k) <= v < 128 * Pow256(k)
    ensures |IntOctets(v)| <= k + 1
    decreases k
  {
    if k > 0 && !InByte(v) {
      IntOctetsSize(v / 256, k - 1);
    }
  }

  lemma {:induction false} SignOctet(v: int)
    ensures IntOctets(v) != [] && (IntOctets(v)[0] >= 128 <==> v < 0)
    decreases if v < 0 then -v else v
  {
    if !InByte(v) {
      SignOctet(v / 256);
    }
  }

  // ---------- Lengths

  function NatOctets(n: nat): (s: Octets)
    ensures s != [] && (s[0] == 0 ==> n == 0 && |s| == 1)
  {
    if n < 256 then [n] else NatOctets(n / 256) + [n % 256]
  }

  lemma {:induction false} NatOctetsMeaning(n: nat)
    ensures Num(NatOctets(n)) == n
  {
    if n >= 256 {
      NatOctetsMeaning(n / 256);
      NumSnoc(NatOctets(n / 256), n % 256);
    } else {
      NumSnoc([], n);
      assert [] + [n] == [n];
    }
  }

  lemma {:induction false} NatOctetsLow(n: nat, k: nat)
    requires 0 <= Shift(n, k) < 256 && (k > 0 ==> Shift(n, k) != 0)
    ensures NatOctets(n) == Low(n, k + 1)
    decreases k
  {
    if k == 0 {
      assert Low(n / 256, 0) == [];
    } else {
      if n < 256 {
        ShiftZero(k - 1);
      }
      NatOctetsLow(n / 256, k - 1);
    }
  }

  lemma {:induction false} ShiftZero(k: nat)
    ensures Shift(0, k) == 0
  {
    if k > 0 {
      ShiftZero(k - 1);
    }
  }

  /** The short form below 128, the long form with as few octets as possible above. */
  function LengthOctets(n: nat): (s: Octets)
    requires Uint32(n)
    ensures s != [] && |s| <= 5
  {
    if n < 128 then [n]
    else
      NatSize(n);
      [128 + |NatOctets(n)|] + NatOctets(n)
  }

  lemma NatSize(n: nat)
    requires Uint32(n)
    ensures |NatOctets(n)| <= 4
  {
    assert n / 256 < 0x100_0000 && n / 256 / 256 < 0x1_0000 && n / 256 / 256 / 256 < 256;
    assert n / 256 >= 256 ==> |NatOctets(n / 256)| == 1 + |NatOctets(n / 256 / 256)|;
    assert n / 256 / 256 >= 256 ==> |NatOctets(n / 256 / 256)| == 1 + |NatOctets(n / 256 / 256 / 256)|;
  }

  lemma LengthLow(n: nat, i: nat)
    requires Shift(n, i + 1) == 0 && (i > 0 ==> Shift(n, i) != 0)
    ensures NatOctets(n) == Low(n, i + 1) && (n < 256 ==> NatOctets(n) == [n])
  {
    ShiftStep(n, i);
    NatOctetsLow(n, i);
  }

  method LengthEncTry(value: nat) returns (len: nat)
    requires Uint32(value)
    ensures len == |LengthOctets(value)|
  {
    hide Low, Shift, NatOctets;
    var i := SkipFill(value, 0);
    LengthLow(value, i);
    len := if value > 127 then 1 else 0;
    len := len + i + 1;
  }

  method LengthEnc(value: nat, buf: array<byte>, at: nat) returns (next: nat)
    requires Uint32(value) && at + |LengthOctets(value)| <= buf.Length
    modifies buf
    ensures next == at + |LengthOctets(value)|
    ensures buf[..next] == old(buf[..at]) + LengthOctets(value)
  {
    hide Low, Shift, NatOctets;
    var i := SkipFill(value, 0);
    LengthLow(value, i);
    next := at;
    if value > 127 {
      buf[next] := 128 + i + 1;
      next := next + 1;
    }
    next := WriteDown(value, i, buf, next);
  }

  /** How many octets a length occupies, by its first one. */
  function LengthSize(b: byte): (n: nat)
    ensures n >= 1
  {
    if b >= 128 then 1 + (b - 128) else 1
  }

  /** The number that a length at the start of `s` stands for, as a 32-bit word. */
  function LengthValue(s: Octets): nat
    requires s != [] && LengthSize(s[0]) <= |s|
  {
    if s[0] >= 128 then Num(s[1..LengthSize(s[0])]) % ID_MODULUS else s[0]
  }

  method LengthDec(s: Octets) returns (len: nat, value: nat)
    requires s != [] && LengthSize(s[0]) <= |s|
    ensures len == LengthSize(s[0]) && value == LengthValue(s)
  {
    len := 1;
    var i := 0;
    if s[0] >= 128 {
      len := len + (s[0] - 128);
      i := i + 1;
    }
    ThroughIsNum(0, s[i..len]);
    assert s[..len][i..] == s[i..len];
    value := ReadUp(s[..len], i, 0);
    if s[0] < 128 {
      assert s[0..1] == [] + [s[0]];
      NumSnoc([], s[0]);
    }
  }

  /** Lengths come back, whatever follows them. */
  lemma LengthRoundTrip(n: nat, rest: Octets)
    requires Uint32(n)
    ensures var s := LengthOctets(n) + rest;
      LengthSize(s[0]) == |LengthOctets(n)| && LengthValue(s) == n
  {
    var s := LengthOctets(n) + rest;
    if n >= 128 {
      NatSize(n);
      assert s[1..LengthSize(s[0])] == NatOctets(n);
      NatOctetsMeaning(n);
    }
  }

  lemma {:induction false} LowOfNum(s: Octets)
    ensures Low(Num(s), |s|) == s
  {
    if s != [] {
      LowOfNum(s[..|s| - 1]);
    }
  }

  lemma {:induction false} NumBound(s: Octets)
    ensures Num(s) < Pow256(|s|)
  {
    if s != [] {
      NumBound(s[..|s| - 1]);
    }
  }

  lemma {:induction false} NatOctetsLeast(n: nat)
    ensures |NatOctets(n)| > 1 ==> Pow256(|NatOctets(n)| - 1) <= n
  {
    if n >= 256 {
      NatOctetsLeast(n / 256);
    }
  }

  lemma {:induction false} PowGrows(i: nat, j: nat)
    requires i <= j
    ensures Pow256(i) <= Pow256(j)
  {
    if i < j {
      PowGrows(i, j - 1);
    }
  }

  /** Among the octets of a number below 2^32, read as a 32-bit word, those without leading zeros are the fewest. */
  lemma NatOctetsShortest(t: Octets)
    ensures var n := Num(t) % ID_MODULUS;
      n > 0 ==> |NatOctets(n)| <= |t| && (|NatOctets(n)| == |t| ==> NatOctets(n) == t)
  {
    hide NatOctets, Pow256, Low;
    var n := Num(t) % ID_MODULUS;
    var o := NatOctets(n);
    NumBound(t);
    NatSize(n);
    NatOctetsLeast(n);
    NatOctetsMeaning(n);
    SmallPowers();
    LowOfNum(t);
    LowOfNum(o);
    if |t| < |o| {
      PowGrows(|t|, |o| - 1);
    } else if |t| == |o| {
      PowGrows(|t|, 4);
    }
  }

  /**
   No length is encoded in fewer octets, and in as few only the indefinite form, which is read as 0, stands for the
   same. One octet is for the lengths below 128.
   */
  lemma LengthIsLeast(s: Octets)
    requires s != [] && |s| == LengthSize(s[0])
    ensures var least := LengthOctets(LengthValue(s));
      |least| <= |s| && (|least| == |s| ==> s == least || s == [0x80])
    ensures |LengthOctets(LengthValue(s))| == 1 <==> LengthValue(s) < 128
  {
    hide NatOctets, Num;
    var n := LengthValue(s);
    if n >= 128 {
      NatOctetsShortest(s[1..]);
      assert s[1..|s|] == s[1..] && s == [s[0]] + s[1..];
      SomeOctets(n);
    }
  }

  lemma SomeOctets(n: nat)
    ensures NatOctets(n) != []
  {
  }
}
