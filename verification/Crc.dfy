/**
 CRC-32 as in kernel/src/ota.rs: reflected polynomial, one bit at a time.

 A u32 is modelled by its 32 bits and a byte by its 8 bits, lowest first, so that XOR is
 pointwise, a right shift drops the first bit, and little-endian encoding is concatenation.
 */
module Crc {
  type Word = w: seq<bool> | |w| == 32 witness seq(32, _ => false)
  type Octet = b: seq<bool> | |b| == 8 witness seq(8, _ => false)

  /** 0xEDB8_8320. */
  const POLY: Word := [
    false, false, false, false, false, true, false, false,
    true, true, false, false, false, false, false, true,
    false, false, false, true, true, true, false, true,
    true, false, true, true, false, true, true, true]

  const ZERO_BYTE: Octet := [false, false, false, false, false, false, false, false]
  const ZERO: Word := ZERO_BYTE + ZERO_BYTE + ZERO_BYTE + ZERO_BYTE
  const ONES: Word := Not(ZERO)

  function Xor(a: Word, b: Word): Word
  {
    seq(32, i requires 0 <= i < 32 => a[i] != b[i])
  }

  function Not(a: Word): Word
  {
    seq(32, i requires 0 <= i < 32 => !a[i])
  }

  /** A byte widened to 32 bits. */
  function Wide(b: Octet): Word
  {
    b + ZERO_BYTE + ZERO_BYTE + ZERO_BYTE
  }

  /** One bit: `(crc >> 1) ^ (poly & -(crc & 1))`. */
  function BitWith(c: Word, poly: Word): Word
  {
    seq(32, i requires 0 <= i < 32 => (i < 31 && c[i + 1]) != (c[0] && poly[i]))
  }

  function Bit(c: Word): Word
  {
    BitWith(c, POLY)
  }

  /** `n` turns of the inner loop. */
  function Bits(c: Word, n: nat): Word
    decreases n
  {
    if n == 0 then c else Bits(Bit(c), n - 1)
  }

  /** The register after the bytes of `data`, starting from `s`. */
  function Raw(data: seq<Octet>, s: Word): Word
    decreases |data|
  {
    if data == [] then s else Raw(data[1..], Bits(Xor(s, Wide(data[0])), |data[0]|))
  }

  function Crc32(data: seq<Octet>): Word
  {
    Not(Raw(data, ONES))
  }

  method ComputeCrc32(data: seq<Octet>) returns (crc: Word)
    ensures crc == Crc32(data)
  {
    var c := ONES;
    for i := 0 to |data|
      invariant Raw(data[i..], c) == Raw(data, ONES)
    {
      assert data[i..][1..] == data[i + 1..];
      c := ByteLoop(Xor(c, Wide(data[i])), |data[i]|);
    }
    crc := Not(c);
  }

  /** The inner loop: one turn for each of the 8 bits of a byte. */
  method ByteLoop(c: Word, turns: nat) returns (r: Word)
    ensures r == Bits(c, turns)
  {
    r := c;
    for i := 0 to turns
      invariant Bits(r, turns - i) == Bits(c, turns)
    {
      r := Bit(r);
    }
  }

  // ---------------------------------------------------------------- linearity

  lemma BitLinear(a: Word, b: Word)
    ensures Bit(Xor(a, b)) == Xor(Bit(a), Bit(b))
  {
  }

  lemma {:induction false} BitsLinear(a: Word, b: Word, n: nat)
    ensures Bits(Xor(a, b), n) == Xor(Bits(a, n), Bits(b, n))
    decreases n
  {
    if n > 0 {
      BitLinear(a, b);
      BitsLinear(Bit(a), Bit(b), n - 1);
    }
  }

  lemma BitNonZero(a: Word)
    ensures Bit(a) == ZERO <==> a == ZERO
  {
    ZeroAt();
    if Bit(a) == ZERO {
      assert Bit(a)[31] == a[0];
      assert forall i :: 0 <= i < 31 ==> Bit(a)[i] == a[i + 1];
      assert forall i :: 0 < i < 32 ==> a[i] == Bit(a)[i - 1];
    }
  }

  lemma ZeroAt()
    ensures forall i :: 0 <= i < 32 ==> !ZERO[i]
  {
  }

  lemma {:induction false} BitsNonZero(a: Word, n: nat)
    ensures Bits(a, n) == ZERO <==> a == ZERO
    decreases n
  {
    if n > 0 {
      BitNonZero(a);
      BitsNonZero(Bit(a), n - 1);
    }
  }

  function XorByte(a: Octet, b: Octet): Octet
  {
    seq(8, i requires 0 <= i < 8 => a[i] != b[i])
  }

  /** Bytewise XOR of two equally long images. */
  function XorAll(a: seq<Octet>, e: seq<Octet>): (r: seq<Octet>)
    requires |a| == |e|
    ensures |r| == |a|
    ensures forall i :: 0 <= i < |a| ==> r[i] == XorByte(a[i], e[i])
  {
    if a == [] then [] else [XorByte(a[0], e[0])] + XorAll(a[1..], e[1..])
  }

  /** The register is linear in the data: an error pattern adds its own register. */
  lemma {:induction false} RawLinear(a: seq<Octet>, e: seq<Octet>, s: Word, t: Word)
    requires |a| == |e|
    ensures Raw(XorAll(a, e), Xor(s, t)) == Xor(Raw(a, s), Raw(e, t))
    decreases |a|
  {
    if a != [] {
      var x := XorAll(a, e);
      assert x[1..] == XorAll(a[1..], e[1..]);
      var u, v := Xor(s, Wide(a[0])), Xor(t, Wide(e[0]));
      assert Xor(Xor(s, t), Wide(x[0])) == Xor(u, v);
      BitsLinear(u, v, |a[0]|);
      RawLinear(a[1..], e[1..], Bits(u, |a[0]|), Bits(v, |a[0]|));
    }
  }

  // ---------------------------------------------------------------- error patterns

  ghost predicate AllZero(e: seq<Octet>)
  {
    forall i :: 0 <= i < |e| ==> e[i] == ZERO_BYTE
  }

  /** Zero bytes keep a register zero or non-zero. */
  lemma {:induction false} RawOfZeros(e: seq<Octet>, s: Word)
    requires AllZero(e)
    ensures Raw(e, s) == ZERO <==> s == ZERO
    decreases |e|
  {
    if e != [] {
      assert Xor(s, Wide(e[0])) == s;
      BitsNonZero(s, |e[0]|);
      RawOfZeros(e[1..], Bits(s, |e[0]|));
    }
  }

  lemma {:induction false} RawConcat(a: seq<Octet>, b: seq<Octet>, s: Word)
    ensures Raw(a + b, s) == Raw(b, Raw(a, s))
    decreases |a|
  {
    if a == [] {
      assert a + b == b;
    } else {
      assert (a + b)[1..] == a[1..] + b;
      RawConcat(a[1..], b, Bits(Xor(s, Wide(a[0])), |a[0]|));
    }
  }

  /** Four bytes as a little-endian word. */
  function Joined(b0: Octet, b1: Octet, b2: Octet, b3: Octet): Word
  {
    b0 + b1 + b2 + b3
  }

  /** A word whose low `n` bits are zero is only shifted by `n` turns. */
  lemma {:induction false} BitsShift(y: Word, n: nat)
    requires n <= 32 && forall i :: 0 <= i < n ==> !y[i]
    ensures Bits(y, n) == y[n..] + seq(n, _ => false)
    decreases n
  {
    if n > 0 {
      assert Bit(y) == y[1..] + [false];
      BitsShift(Bit(y), n - 1);
      assert Bit(y)[n - 1..] == y[n..] + [false];
    }
  }

  lemma XorAssoc(a: Word, b: Word, c: Word)
    ensures Xor(a, Xor(b, c)) == Xor(Xor(a, b), c)
  {
  }

  lemma LowAndHigh(b0: Octet, b1: Octet, b2: Octet, b3: Octet)
    ensures Joined(b0, b1, b2, b3) == Xor(Wide(b0), Joined(ZERO_BYTE, b1, b2, b3))
  {
  }

  lemma HighMovesDown(b1: Octet, b2: Octet, b3: Octet, n: nat)
    requires n == 8
    ensures Bits(Joined(ZERO_BYTE, b1, b2, b3), n) == Joined(b1, b2, b3, ZERO_BYTE)
  {
    var high := Joined(ZERO_BYTE, b1, b2, b3);
    HighShape(b1, b2, b3);
    BitsShift(high, n);
  }

  lemma HighShape(b1: Octet, b2: Octet, b3: Octet)
    ensures var high := Joined(ZERO_BYTE, b1, b2, b3);
            (forall i :: 0 <= i < 8 ==> !high[i]) && high[8..] + seq(8, _ => false) == Joined(b1, b2, b3, ZERO_BYTE)
  {
  }

  /** The first byte goes through its turns while the others wait above it. */
  lemma OneByte(s: Word, b0: Octet, b1: Octet, b2: Octet, b3: Octet)
    ensures Bits(Xor(s, Joined(b0, b1, b2, b3)), |b0|) == Xor(Bits(Xor(s, Wide(b0)), |b0|), Joined(b1, b2, b3, ZERO_BYTE))
  {
    var low, high := Xor(s, Wide(b0)), Joined(ZERO_BYTE, b1, b2, b3);
    LowAndHigh(b0, b1, b2, b3);
    XorAssoc(s, Wide(b0), high);
    BitsLinear(low, high, |b0|);
    HighMovesDown(b1, b2, b3, |b0|);
  }

  lemma {:induction false} BitsAdd(c: Word, m: nat, n: nat)
    ensures Bits(c, m + n) == Bits(Bits(c, m), n)
    decreases m
  {
    if m > 0 {
      BitsAdd(Bit(c), m - 1, n);
    }
  }

  /** Four bytes enter the register as one word. */
  lemma FourBytes(d: seq<Octet>, s: Word)
    requires |d| == 4
    ensures Raw(d, s) == Bits(Xor(s, Joined(d[0], d[1], d[2], d[3])), 4 * |d[0]|)
  {
    var n, z := |d[0]|, ZERO_BYTE;
    var s1 := Bits(Xor(s, Wide(d[0])), n);
    var s2 := Bits(Xor(s1, Wide(d[1])), n);
    var s3 := Bits(Xor(s2, Wide(d[2])), n);
    var w := Xor(s, Joined(d[0], d[1], d[2], d[3]));
    var w1 := Xor(s1, Joined(d[1], d[2], d[3], z));
    var w2 := Xor(s2, Joined(d[2], d[3], z, z));
    var w3 := Xor(s3, Joined(d[3], z, z, z));
    OneByte(s, d[0], d[1], d[2], d[3]);
    OneByte(s1, d[1], d[2], d[3], z);
    OneByte(s2, d[2], d[3], z, z);
    OneByte(s3, d[3], z, z, z);
    BitsAdd(w, n, 3 * n);
    BitsAdd(w1, n, 2 * n);
    BitsAdd(w2, n, n);
    RawFour(d, s);
  }

  lemma RawStep(d: seq<Octet>, s: Word)
    requires d != []
    ensures Raw(d, s) == Raw(d[1..], Bits(Xor(s, Wide(d[0])), |d[0]|))
  {
  }

  lemma RawFour(d: seq<Octet>, s: Word)
    requires |d| == 4
    ensures Raw(d, s) == var n := |d[0]|;
      Bits(Xor(Bits(Xor(Bits(Xor(Bits(Xor(s, Wide(d[0])), n), Wide(d[1])), n), Wide(d[2])), n), Wide(d[3])), n)
  {
    var n := |d[0]|;
    var d1 := d[1..];
    var d2 := d1[1..];
    var d3 := d2[1..];
    assert d1[0] == d[1] && d2[0] == d[2] && d3[0] == d[3] && d3[1..] == [];
    var s1 := Bits(Xor(s, Wide(d[0])), n);
    var s2 := Bits(Xor(s1, Wide(d[1])), n);
    var s3 := Bits(Xor(s2, Wide(d[2])), n);
    RawStep(d, s);
    RawStep(d1, s1);
    RawStep(d2, s2);
    RawStep(d3, s3);
  }

  /** A burst of four bytes always shows in the register. */
  lemma BurstShows(before: seq<Octet>, d: seq<Octet>, after: seq<Octet>)
    requires AllZero(before) && AllZero(after) && |d| == 4
    ensures Raw(before + d + after, ZERO) == ZERO <==> AllZero(d)
  {
    RawConcat(before + d, after, ZERO);
    RawConcat(before, d, ZERO);
    RawOfZeros(before, ZERO);
    FourShow(d);
    RawOfZeros(after, Raw(d, ZERO));
  }

  lemma FourShow(d: seq<Octet>)
    requires |d| == 4
    ensures Raw(d, ZERO) == ZERO <==> AllZero(d)
  {
    var w := Joined(d[0], d[1], d[2], d[3]);
    FourBytes(d, ZERO);
    XorZero(w);
    BitsNonZero(w, 4 * |d[0]|);
    JoinedZero(d[0], d[1], d[2], d[3]);
  }

  lemma XorZero(w: Word)
    ensures Xor(ZERO, w) == w
  {
  }

  lemma JoinedZero(b0: Octet, b1: Octet, b2: Octet, b3: Octet)
    ensures Joined(b0, b1, b2, b3) == ZERO <==> b0 == ZERO_BYTE && b1 == ZERO_BYTE && b2 == ZERO_BYTE && b3 == ZERO_BYTE
  {
    var w := Joined(b0, b1, b2, b3);
    assert w[..8] == b0 && w[8..16] == b1 && w[16..24] == b2 && w[24..] == b3;
    assert ZERO[..8] == ZERO_BYTE && ZERO[8..16] == ZERO_BYTE && ZERO[16..24] == ZERO_BYTE && ZERO[24..] == ZERO_BYTE;
  }
}
