/** OTA slot images and slot selection (kernel/src/ota.rs). */
module Ota {
  import opened Crc
  import CrcWords

  const HEADER_LEN: nat := 32

  /** 0x4154_4F4B, 'KOTA' read little-endian. */
  const MAGIC: Word := [
    true, true, false, true, false, false, true, false,
    true, true, true, true, false, false, true, false,
    false, false, true, false, true, false, true, false,
    true, false, false, false, false, false, true, false]

  /** KOTA_FLAG_TRIAL. */
  const TRIAL: Word := [true, false, false, false, false, false, false, false] + ZERO_BYTE + ZERO_BYTE + ZERO_BYTE

  // ---------------------------------------------------------------- words, bytes, numbers

  function LeBytes(w: Word): seq<Octet>
  {
    [w[..8], w[8..16], w[16..24], w[24..]]
  }

  function Rd32(image: seq<Octet>, off: nat): Word
    requires off + 4 <= |image|
  {
    Joined(image[off], image[off + 1], image[off + 2], image[off + 3])
  }

  function Pow2(k: nat): (p: nat)
    ensures p > 0
  {
    if k == 0 then 1 else 2 * Pow2(k - 1)
  }

  /** The low `k` bits of `n`, lowest first (`n as u32` for k = 32). */
  function BitsOf(n: nat, k: nat): (b: seq<bool>)
    ensures |b| == k
  {
    if k == 0 then [] else [n % 2 == 1] + BitsOf(n / 2, k - 1)
  }

  function NatOf(b: seq<bool>): nat
  {
    if b == [] then 0 else (if b[0] then 1 else 0) + 2 * NatOf(b[1..])
  }

  /** Cutting a number to k bits is taking it modulo 2^k. */
  lemma {:induction false} NatOfBits(n: nat, k: nat)
    ensures NatOf(BitsOf(n, k)) == n % Pow2(k)
  {
    if k > 0 {
      NatOfBits(n / 2, k - 1);
      assert BitsOf(n, k)[1..] == BitsOf(n / 2, k - 1);
      HalfMod(n, Pow2(k - 1));
    }
  }

  lemma HalfMod(n: nat, m: nat)
    requires m > 0
    ensures n % (2 * m) == n % 2 + 2 * (n / 2 % m)
  {
    var q := n / 2;
    var a, b := q / m, q % m;
    assert q == m * a + b;
    assert n == 2 * m * a + (2 * b + n % 2) by {
      assert n == 2 * q + n % 2;
      assert 2 * (m * a) == 2 * m * a;
    }
    ModOf(n, 2 * m, a, 2 * b + n % 2);
  }

  lemma ModOf(n: nat, m: nat, a: nat, r: nat)
    requires n == m * a + r && r < m
    ensures n % m == r
  {
    var q := n / m;
    assert n == m * q + n % m;
    NextMultiple(m, a, q);
    NextMultiple(m, q, a);
  }

  lemma {:induction false} NextMultiple(m: nat, a: nat, q: nat)
    ensures a < q ==> m * a + m <= m * q
  {
    if a < q {
      NextMultiple(m, a, q - 1);
      assert m * q == m * (q - 1) + m;
    }
  }

  lemma Pow32()
    ensures Pow2(32) == 0x1_0000_0000
  {
    Pow2Next4(0);
    Pow2Next4(4);
    Pow2Next4(8);
    Pow2Next4(12);
    Pow2Next4(16);
    Pow2Next4(20);
    Pow2Next4(24);
    Pow2Next4(28);
  }

  lemma Pow2Next4(k: nat)
    ensures Pow2(k + 4) == 16 * Pow2(k)
  {
    assert Pow2(k + 2) == 4 * Pow2(k);
  }

  // ---------------------------------------------------------------- images

  function Zeros(n: nat): (z: seq<Octet>)
    ensures |z| == n && AllZero(z)
  {
    if n == 0 then [] else [ZERO_BYTE] + Zeros(n - 1)
  }

  /** Overwrite a stretch of a buffer (copy_from_slice). */
  function Put(image: seq<Octet>, off: nat, bytes: seq<Octet>): (r: seq<Octet>)
    requires off + |bytes| <= |image|
    ensures |r| == |image|
    ensures forall i :: 0 <= i < |image| ==> r[i] == if off <= i < off + |bytes| then bytes[i - off] else image[i]
  {
    image[..off] + bytes + image[off + |bytes|..]
  }

  function TrialFlag(trial: bool): Word
  {
    if trial then TRIAL else ZERO
  }

  /** Reading back a field that was written, and one that was not touched. */
  lemma PutRd(image: seq<Octet>, off: nat, w: Word)
    requires off + 4 <= |image|
    ensures Rd32(Put(image, off, LeBytes(w)), off) == w
  {
  }

  lemma PutOther(image: seq<Octet>, off: nat, bytes: seq<Octet>, o: nat)
    requires off + |bytes| <= |image| && o + 4 <= |image| && (o + 4 <= off || off + |bytes| <= o)
    ensures Rd32(Put(image, off, bytes), o) == Rd32(image, o)
  {
  }

  /** The image before its CRC is filled in. */
  function Unsigned(version: Word, payload: seq<Octet>, trial: bool): (r: seq<Octet>)
    ensures |r| == HEADER_LEN + |payload|
  {
    var i0 := Put(Zeros(HEADER_LEN + |payload|), 0, LeBytes(MAGIC));
    var i1 := Put(i0, 4, LeBytes(version));
    var i2 := Put(i1, 8, LeBytes(BitsOf(|i1|, 32)));
    var i3 := Put(i2, 28, LeBytes(TrialFlag(trial)));
    Put(i3, HEADER_LEN, payload)
  }

  function Slot(version: Word, payload: seq<Octet>, trial: bool): (r: seq<Octet>)
    ensures |r| == HEADER_LEN + |payload|
  {
    var image := Unsigned(version, payload, trial);
    Put(image, 12, LeBytes(Crc32(image)))
  }

  method MakeSlot(version: Word, payload: seq<Octet>, trial: bool) returns (image: seq<Octet>)
    ensures image == Slot(version, payload, trial)
  {
    image := Zeros(HEADER_LEN + |payload|);
    image := Put(image, 0, LeBytes(MAGIC));
    image := Put(image, 4, LeBytes(version));
    image := Put(image, 8, LeBytes(BitsOf(|image|, 32)));
    image := Put(image, 28, LeBytes(TrialFlag(trial)));
    image := Put(image, HEADER_LEN, payload);
    var crc := ComputeCrc32(image);
    image := Put(image, 12, LeBytes(crc));
  }

  datatype ParseResult = Parsed(version: Word, crc: Word, flags: Word) | BadMagic | BadCrc | Panic

  /** The stretch of the image the CRC covers, with the CRC field cleared. */
  function Probe(image: seq<Octet>): seq<Octet>
    requires 16 <= |image|
  {
    Put(image, 12, Zeros(4))
  }

  /** parse_slot; a length field below 16 makes the slice of the CRC field panic. */
  function Parse(image: seq<Octet>): ParseResult
  {
    if |image| < HEADER_LEN || Rd32(image, 0) != MAGIC then BadMagic
    else
      var n := NatOf(Rd32(image, 8));
      var len := if n < |image| then n else |image|;
      if len < 16 then Panic
      else if Crc32(Probe(image[..len])) != Rd32(image, 12) then BadCrc
      else Parsed(Rd32(image, 4), Rd32(image, 12), Rd32(image, 28))
  }

  /** The header fields of an unsigned image, and its probe. */
  lemma UnsignedFields(version: Word, payload: seq<Octet>, trial: bool)
    ensures var u := Unsigned(version, payload, trial);
            && Rd32(u, 0) == MAGIC && Rd32(u, 4) == version && Rd32(u, 8) == BitsOf(|u|, 32)
            && Rd32(u, 28) == TrialFlag(trial) && Probe(u) == u
  {
    var z := Zeros(HEADER_LEN + |payload|);
    var i0 := Put(z, 0, LeBytes(MAGIC));
    var i1 := Put(i0, 4, LeBytes(version));
    var i2 := Put(i1, 8, LeBytes(BitsOf(|i1|, 32)));
    var i3 := Put(i2, 28, LeBytes(TrialFlag(trial)));
    PutRd(z, 0, MAGIC);
    PutOther(i0, 4, LeBytes(version), 0);
    PutRd(i0, 4, version);
    PutOther(i1, 8, LeBytes(BitsOf(|i1|, 32)), 0);
    PutOther(i1, 8, LeBytes(BitsOf(|i1|, 32)), 4);
    PutRd(i1, 8, BitsOf(|i1|, 32));
    PutOther(i2, 28, LeBytes(TrialFlag(trial)), 0);
    PutOther(i2, 28, LeBytes(TrialFlag(trial)), 4);
    PutOther(i2, 28, LeBytes(TrialFlag(trial)), 8);
    PutRd(i2, 28, TrialFlag(trial));
    PutOther(i3, HEADER_LEN, payload, 0);
    PutOther(i3, HEADER_LEN, payload, 4);
    PutOther(i3, HEADER_LEN, payload, 8);
    PutOther(i3, HEADER_LEN, payload, 28);
    CrcFieldClear(version, payload, trial);
  }

  lemma CrcFieldClear(version: Word, payload: seq<Octet>, trial: bool)
    ensures Probe(Unsigned(version, payload, trial)) == Unsigned(version, payload, trial)
  {
  }

  /** The header fields of a finished image. */
  lemma SlotFields(version: Word, payload: seq<Octet>, trial: bool)
    ensures var s, u := Slot(version, payload, trial), Unsigned(version, payload, trial);
            && Rd32(s, 0) == MAGIC && Rd32(s, 4) == version && Rd32(s, 8) == BitsOf(|s|, 32)
            && Rd32(s, 28) == TrialFlag(trial) && Rd32(s, 12) == Crc32(u) && Probe(s) == u
  {
    var u := Unsigned(version, payload, trial);
    UnsignedFields(version, payload, trial);
    Signed(u, Crc32(u));
    SignedProbe(u, LeBytes(Crc32(u)));
  }

  lemma SignedProbe(u: seq<Octet>, crc: seq<Octet>)
    requires |u| >= HEADER_LEN && |crc| == 4
    ensures Probe(Put(u, 12, crc)) == Probe(u)
  {
  }

  /** Filling in the CRC changes no other field. */
  lemma Signed(u: seq<Octet>, crc: Word)
    requires |u| >= HEADER_LEN
    ensures var s := Put(u, 12, LeBytes(crc));
            && Rd32(s, 0) == Rd32(u, 0) && Rd32(s, 4) == Rd32(u, 4) && Rd32(s, 8) == Rd32(u, 8)
            && Rd32(s, 28) == Rd32(u, 28) && Rd32(s, 12) == crc
  {
  }

  /** An image whose header says how long it is. */
  predicate Framed(image: seq<Octet>)
  {
    && HEADER_LEN <= |image| < 0x1_0000_0000
    && Rd32(image, 0) == MAGIC && Rd32(image, 8) == BitsOf(|image|, 32)
  }

  /** A framed image that carries its own CRC. */
  predicate Sealed(image: seq<Octet>)
  {
    Framed(image) && Rd32(image, 12) == Crc32(Probe(image))
  }

  lemma FieldLength(n: nat)
    requires n < 0x1_0000_0000
    ensures NatOf(BitsOf(n, 32)) == n
  {
    Pow32();
    NatOfBits(n, 32);
  }

  lemma ParseFramed(image: seq<Octet>)
    requires Framed(image)
    ensures Parse(image) == if Sealed(image) then Parsed(Rd32(image, 4), Rd32(image, 12), Rd32(image, 28)) else BadCrc
  {
    FieldLength(|image|);
    assert image[..|image|] == image;
  }

  lemma SlotSealed(version: Word, payload: seq<Octet>, trial: bool)
    requires HEADER_LEN + |payload| < 0x1_0000_0000
    ensures Sealed(Slot(version, payload, trial))
  {
    SlotFields(version, payload, trial);
  }

  /** Whether the cut length field of an image of 2^32 bytes or more still passes the CRC. */
  function CutResult(u: seq<Octet>, good: ParseResult): ParseResult
  {
    var n := |u| % 0x1_0000_0000;
    if n < 16 then Panic else if Crc32(u[..n]) == Crc32(u) then good else BadCrc
  }

  /**
   parse_slot undoes make_slot for total sizes under 2^32.  From there on the length field is cut to 32
   bits, and the CRC of a prefix decides, or the parser panics.
   */
  lemma RoundTrip(version: Word, payload: seq<Octet>, trial: bool)
    ensures var s, u := Slot(version, payload, trial), Unsigned(version, payload, trial);
            var good := Parsed(version, Crc32(u), TrialFlag(trial));
            && s[HEADER_LEN..] == payload
            && Parse(s) == if |s| < 0x1_0000_0000 then good else CutResult(u, good)
  {
    PayloadFollows(version, payload, trial);
    if HEADER_LEN + |payload| < 0x1_0000_0000 {
      FitRoundTrip(version, payload, trial);
    } else {
      CutRoundTrip(version, payload, trial);
    }
  }

  lemma PayloadFollows(version: Word, payload: seq<Octet>, trial: bool)
    ensures Slot(version, payload, trial)[HEADER_LEN..] == payload
  {
  }

  lemma FitRoundTrip(version: Word, payload: seq<Octet>, trial: bool)
    requires HEADER_LEN + |payload| < 0x1_0000_0000
    ensures Parse(Slot(version, payload, trial)) ==
            Parsed(version, Crc32(Unsigned(version, payload, trial)), TrialFlag(trial))
  {
    SlotFields(version, payload, trial);
    SlotSealed(version, payload, trial);
    ParseFramed(Slot(version, payload, trial));
  }

  lemma CutRoundTrip(version: Word, payload: seq<Octet>, trial: bool)
    requires HEADER_LEN + |payload| >= 0x1_0000_0000
    ensures var u := Unsigned(version, payload, trial);
            Parse(Slot(version, payload, trial)) == CutResult(u, Parsed(version, Crc32(u), TrialFlag(trial)))
  {
    var s := Slot(version, payload, trial);
    SlotFields(version, payload, trial);
    Pow32();
    NatOfBits(|s|, 32);
    ParseCut(s, Unsigned(version, payload, trial), |s| % 0x1_0000_0000);
  }

  /** The parser on an image whose length field says less than there is. */
  lemma ParseCut(s: seq<Octet>, u: seq<Octet>, n: nat)
    requires HEADER_LEN <= |s| && Rd32(s, 0) == MAGIC && NatOf(Rd32(s, 8)) == n < |s| && Probe(s) == u
    ensures Parse(s) == if n < 16 then Panic
                        else if Crc32(u[..n]) == Rd32(s, 12) then Parsed(Rd32(s, 4), Rd32(s, 12), Rd32(s, 28))
                        else BadCrc
  {
    if n >= 16 {
      assert Probe(s[..n]) == u[..n];
    }
  }

  // ---------------------------------------------------------------- damaged images

  lemma RdXor(a: seq<Octet>, e: seq<Octet>, off: nat)
    requires |a| == |e| && off + 4 <= |a|
    ensures Rd32(XorAll(a, e), off) == Xor(Rd32(a, off), Rd32(e, off))
  {
    JoinedXor(a[off], a[off + 1], a[off + 2], a[off + 3], e[off], e[off + 1], e[off + 2], e[off + 3]);
  }

  lemma JoinedXor(a0: Octet, a1: Octet, a2: Octet, a3: Octet, e0: Octet, e1: Octet, e2: Octet, e3: Octet)
    ensures Joined(XorByte(a0, e0), XorByte(a1, e1), XorByte(a2, e2), XorByte(a3, e3)) == Xor(Joined(a0, a1, a2, a3), Joined(e0, e1, e2, e3))
  {
  }

  lemma XorCancel(a: Word, b: Word, c: Word)
    ensures Xor(a, b) == Xor(a, c) <==> b == c
    ensures Xor(a, b) == a <==> b == ZERO
    ensures Not(Xor(a, b)) == Xor(Not(a), b)
    ensures Xor(ONES, ZERO) == ONES
  {
    ZeroAt();
    assert forall i :: 0 <= i < 32 && Xor(a, b)[i] == Xor(a, c)[i] ==> b[i] == c[i];
    assert forall i :: 0 <= i < 32 && Xor(a, b)[i] == a[i] ==> !b[i];
  }

  lemma ProbeXor(a: seq<Octet>, e: seq<Octet>)
    requires |a| == |e| >= 16
    ensures Probe(XorAll(a, e)) == XorAll(Probe(a), Probe(e))
  {
    assert XorByte(ZERO_BYTE, ZERO_BYTE) == ZERO_BYTE;
  }

  /** The CRC of a damaged image is the CRC of the image plus the register of the damage. */
  lemma CrcXor(a: seq<Octet>, e: seq<Octet>)
    requires |a| == |e|
    ensures Crc32(XorAll(a, e)) == Xor(Crc32(a), Raw(e, ZERO))
  {
    RawLinear(a, e, ONES, ZERO);
    XorCancel(Raw(a, ONES), Raw(e, ZERO), ZERO);
  }

  /**
   Exactly which damage goes unnoticed: an error pattern that leaves the magic and the length alone is
   accepted if and only if its own CRC register, with its CRC field cleared, equals its CRC field.
   The condition does not mention the image.
   */
  lemma DamageAccepted(s: seq<Octet>, e: seq<Octet>)
    requires Sealed(s) && |e| == |s| && Rd32(e, 0) == ZERO && Rd32(e, 8) == ZERO
    ensures var r := Parse(XorAll(s, e));
            if Raw(Probe(e), ZERO) == Rd32(e, 12) then r.Parsed? else r.BadCrc?
  {
    var x := XorAll(s, e);
    RdXor(s, e, 0);
    RdXor(s, e, 8);
    RdXor(s, e, 12);
    XorCancel(MAGIC, ZERO, ZERO);
    XorCancel(Rd32(s, 8), ZERO, ZERO);
    ProbeXor(s, e);
    CrcXor(Probe(s), Probe(e));
    XorCancel(Crc32(Probe(s)), Raw(Probe(e), ZERO), Rd32(e, 12));
    ParseFramed(x);
  }

  /** Damage to the magic is always noticed. */
  lemma MagicNoticed(s: seq<Octet>, e: seq<Octet>)
    requires Framed(s) && |e| == |s| && Rd32(e, 0) != ZERO
    ensures Parse(XorAll(s, e)).BadMagic?
  {
    RdXor(s, e, 0);
    XorCancel(MAGIC, Rd32(e, 0), ZERO);
  }

  /** The damage lies within the four bytes from `p`, and there is some. */
  ghost predicate Burst(e: seq<Octet>, p: nat)
  {
    p + 4 <= |e| && !AllZero(e) && forall i :: 0 <= i < |e| && !(p <= i < p + 4) ==> e[i] == ZERO_BYTE
  }

  predicate Rejected(r: ParseResult)
  {
    r.BadMagic? || r.BadCrc?
  }

  /** The four bytes from `p` avoid the length field and do not straddle the end of the CRC field. */
  predicate Guarded(p: nat)
  {
    p <= 4 || p == 12 || p >= 16
  }

  /** Any damage within four consecutive guarded bytes is noticed. */
  lemma BurstNoticed(s: seq<Octet>, e: seq<Octet>, p: nat)
    requires Sealed(s) && |e| == |s| && Burst(e, p) && Guarded(p)
    ensures Rejected(Parse(XorAll(s, e)))
  {
    if Rd32(e, 0) != ZERO {
      MagicNoticed(s, e);
    } else {
      assert Rd32(e, 8) == ZERO;
      DamageAccepted(s, e);
      BurstSyndrome(e, p);
    }
  }

  lemma BurstSyndrome(e: seq<Octet>, p: nat)
    requires |e| >= HEADER_LEN && Burst(e, p) && Guarded(p)
    ensures Raw(Probe(e), ZERO) != Rd32(e, 12)
  {
    if p == 12 {
      CrcSyndrome(e);
    } else {
      assert Probe(e) == e && Rd32(e, 12) == ZERO;
      BurstRegister(e, p);
    }
  }

  lemma CrcSyndrome(e: seq<Octet>)
    requires |e| >= HEADER_LEN && Burst(e, 12)
    ensures Raw(Probe(e), ZERO) != Rd32(e, 12)
  {
    RawOfZeros(Probe(e), ZERO);
    JoinedZero(e[12], e[13], e[14], e[15]);
  }

  lemma BurstRegister(e: seq<Octet>, p: nat)
    requires Burst(e, p)
    ensures Raw(e, ZERO) != ZERO
  {
    var before, d, after := e[..p], e[p..p + 4], e[p + 4..];
    assert e == before + d + after;
    var k :| 0 <= k < |e| && e[k] != ZERO_BYTE;
    assert d[k - p] == e[k];
    BurstShows(before, d, after);
  }

  /** Any damage to a single byte outside the length field is noticed. */
  lemma ByteNoticed(s: seq<Octet>, e: seq<Octet>, i: nat)
    requires Sealed(s) && |e| == |s| && i < |e| && !(8 <= i < 12)
    requires e[i] != ZERO_BYTE && forall j :: 0 <= j < |e| && j != i ==> e[j] == ZERO_BYTE
    ensures Rejected(Parse(XorAll(s, e)))
  {
    var p := if i <= 4 then i else if i < 8 then 4 else if i < 16 then 12 else if i + 4 <= |e| then i else |e| - 4;
    BurstNoticed(s, e, p);
  }

  const BYTE_C1: Octet := [true, false, false, false, false, false, true, true]
  const BYTE_70: Octet := [false, false, false, false, true, true, true, false]
  const BYTE_ED: Octet := [true, false, true, true, false, true, true, true]
  const BYTE_64: Octet := [false, false, true, false, false, true, true, false]

  /** The last three bytes of the CRC field and the byte after it change, in an image without payload. */
  ghost predicate Straddles(e: seq<Octet>)
  {
    && |e| == HEADER_LEN && e[13] == BYTE_C1 && e[14] == BYTE_70 && e[15] == BYTE_ED && e[16] == BYTE_64
    && AllZero(e[..13]) && AllZero(e[17..])
  }

  function Straddle(): (e: seq<Octet>)
    ensures Straddles(e)
  {
    var z, t := Zeros(13), Zeros(15);
    z + [BYTE_C1, BYTE_70, BYTE_ED, BYTE_64] + t
  }

  /**
   Four consecutive bytes that straddle the end of the CRC field are not always enough: the same four
   byte changes go unnoticed in every image without payload.
   */
  lemma StraddleUnnoticed(s: seq<Octet>)
    requires Sealed(s) && |s| == HEADER_LEN
    ensures Burst(Straddle(), 13) && Parse(XorAll(s, Straddle())).Parsed?
  {
    var e := Straddle();
    StraddleIsBurst(e);
    StraddleRegister(e);
    DamageAccepted(s, e);
  }

  lemma StraddleIsBurst(e: seq<Octet>)
    requires Straddles(e)
    ensures Burst(e, 13) && Rd32(e, 0) == ZERO && Rd32(e, 8) == ZERO
  {
  }

  lemma StraddleRegister(e: seq<Octet>)
    requires Straddles(e)
    ensures Raw(Probe(e), ZERO) == Rd32(e, 12)
  {
    StraddleField(e);
    StraddleRaw(Probe(e)[..16], e[16], e[17..]);
    assert Probe(e) == Probe(e)[..16] + ([e[16]] + e[17..]);
    SameUnique(Raw(Probe(e), ZERO), Rd32(e, 12), 0xED70_C100);
  }

  lemma StraddleField(e: seq<Octet>)
    requires Straddles(e)
    ensures CrcWords.Same(Rd32(e, 12), 0xED70_C100)
    ensures AllZero(Probe(e)[..16])
  {
    assert e[12] == e[..13][12] == ZERO_BYTE;
    JoinedIs();
  }

  lemma WideIs()
    ensures CrcWords.Same(Wide(BYTE_64), 0x64)
  {
  }

  lemma JoinedIs()
    ensures CrcWords.Same(Joined(ZERO_BYTE, BYTE_C1, BYTE_70, BYTE_ED), 0xED70_C100)
  {
  }

  lemma StraddleRaw(z: seq<Octet>, b: Octet, t: seq<Octet>)
    requires AllZero(z) && AllZero(t) && |t| == 15 && b == BYTE_64
    ensures CrcWords.Same(Raw(z + ([b] + t), ZERO), 0xED70_C100)
  {
    RawConcat(z, [b] + t, ZERO);
    RawOfZeros(z, ZERO);
    var w := Wide(b);
    assert Xor(ZERO, w) == w by { ZeroAt(); }
    assert ([b] + t)[1..] == t;
    WideIs();
    CrcWords.BitsIsTurn(w, 0x64);
    CrcWords.ZerosTurn(t, Bits(w, |b|), CrcWords.Turn(0x64));
    CrcWords.SixteenTurns();
  }

  lemma SameUnique(r: Word, q: Word, v: bv32)
    requires CrcWords.Same(r, v) && CrcWords.Same(q, v)
    ensures r == q
  {
    SameByte0(r, q, v);
    SameByte1(r, q, v);
    SameByte2(r, q, v);
    SameByte3(r, q, v);
    assert r == r[..8] + r[8..16] + r[16..24] + r[24..] && q == q[..8] + q[8..16] + q[16..24] + q[24..];
  }

  lemma SameByte0(r: Word, q: Word, v: bv32)
    requires CrcWords.Same(r, v) && CrcWords.Same(q, v)
    ensures r[..8] == q[..8]
  {
  }

  lemma SameByte1(r: Word, q: Word, v: bv32)
    requires CrcWords.Same(r, v) && CrcWords.Same(q, v)
    ensures r[8..16] == q[8..16]
  {
  }

  lemma SameByte2(r: Word, q: Word, v: bv32)
    requires CrcWords.Same(r, v) && CrcWords.Same(q, v)
    ensures r[16..24] == q[16..24]
  {
  }

  lemma SameByte3(r: Word, q: Word, v: bv32)
    requires CrcWords.Same(r, v) && CrcWords.Same(q, v)
    ensures r[24..] == q[24..]
  {
  }

  // ---------------------------------------------------------------- selection

  datatype Choice = SlotA | SlotB | Crash

  predicate IsTrial(flags: Word)
  {
    flags[0]
  }

  /** select_slot; Crash when parse_slot panics. */
  function Select(a: seq<Octet>, b: seq<Octet>): Choice
  {
    Choose(Parse(a), Parse(b))
  }

  function Choose(a: ParseResult, b: ParseResult): Choice
  {
    if a.Panic? || b.Panic? then Crash
    else if a.Parsed? && b.Parsed? then
      if a.version != b.version then (if NatOf(b.version) > NatOf(a.version) then SlotB else SlotA)
      else if IsTrial(a.flags) && !IsTrial(b.flags) then SlotB
      else SlotA
    else if !a.Parsed? && b.Parsed? then SlotB
    else SlotA
  }

  /** A damaged slot never wins over an intact one, whichever side it is on. */
  lemma DamagedLoses(s: seq<Octet>, e: seq<Octet>, p: nat, other: seq<Octet>)
    requires Sealed(s) && |e| == |s| && Burst(e, p) && Guarded(p) && Parse(other).Parsed?
    ensures Select(XorAll(s, e), other) == SlotB
    ensures Select(other, XorAll(s, e)) == SlotA
  {
    BurstNoticed(s, e, p);
    RejectedLoses(Parse(XorAll(s, e)), Parse(other));
  }

  lemma RejectedLoses(a: ParseResult, b: ParseResult)
    requires Rejected(a) && b.Parsed?
    ensures Choose(a, b) == SlotB && Choose(b, a) == SlotA
  {
  }

  /** Between two intact slots the higher version wins, and of equals one that is not on trial. */
  lemma HigherVersionWins(va: Word, vb: Word, pa: seq<Octet>, pb: seq<Octet>, ta: bool, tb: bool)
    requires HEADER_LEN + |pa| < 0x1_0000_0000 && HEADER_LEN + |pb| < 0x1_0000_0000
    ensures Select(Slot(va, pa, ta), Slot(vb, pb, tb)) ==
            if NatOf(vb) > NatOf(va) || (va == vb && ta && !tb) then SlotB else SlotA
  {
    FitRoundTrip(va, pa, ta);
    FitRoundTrip(vb, pb, tb);
    TrialBit(ta);
    TrialBit(tb);
  }

  lemma TrialBit(trial: bool)
    ensures IsTrial(TrialFlag(trial)) == trial
  {
  }
}
