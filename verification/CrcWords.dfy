/** The bitwise model of Crc against 32-bit machine words. */
module CrcWords {
  import opened Crc

  /** The bits of `r` are those of the machine word `v`. */
  ghost predicate Same(r: Word, v: bv32)
  {
    && r[0] == (v & 0x1 != 0)
    && r[1] == (v & 0x2 != 0)
    && r[2] == (v & 0x4 != 0)
    && r[3] == (v & 0x8 != 0)
    && r[4] == (v & 0x10 != 0)
    && r[5] == (v & 0x20 != 0)
    && r[6] == (v & 0x40 != 0)
    && r[7] == (v & 0x80 != 0)
    && r[8] == (v & 0x100 != 0)
    && r[9] == (v & 0x200 != 0)
    && r[10] == (v & 0x400 != 0)
    && r[11] == (v & 0x800 != 0)
    && r[12] == (v & 0x1000 != 0)
    && r[13] == (v & 0x2000 != 0)
    && r[14] == (v & 0x4000 != 0)
    && r[15] == (v & 0x8000 != 0)
    && r[16] == (v & 0x10000 != 0)
    && r[17] == (v & 0x20000 != 0)
    && r[18] == (v & 0x40000 != 0)
    && r[19] == (v & 0x80000 != 0)
    && r[20] == (v & 0x100000 != 0)
    && r[21] == (v & 0x200000 != 0)
    && r[22] == (v & 0x400000 != 0)
    && r[23] == (v & 0x800000 != 0)
    && r[24] == (v & 0x1000000 != 0)
    && r[25] == (v & 0x2000000 != 0)
    && r[26] == (v & 0x4000000 != 0)
    && r[27] == (v & 0x8000000 != 0)
    && r[28] == (v & 0x10000000 != 0)
    && r[29] == (v & 0x20000000 != 0)
    && r[30] == (v & 0x40000000 != 0)
    && r[31] == (v & 0x80000000 != 0)
  }

  /** The source's line, on machine words. */
  function MachineBit(v: bv32): bv32
  {
    (v >> 1) ^ (0xEDB8_8320 & (0 - (v & 1)))
  }

  lemma MachineBitAt(v: bv32)
    ensures (MachineBit(v) & 0x1 != 0) == ((v & 0x2 != 0))
    ensures (MachineBit(v) & 0x2 != 0) == ((v & 0x4 != 0))
    ensures (MachineBit(v) & 0x4 != 0) == ((v & 0x8 != 0))
    ensures (MachineBit(v) & 0x8 != 0) == ((v & 0x10 != 0))
    ensures (MachineBit(v) & 0x10 != 0) == ((v & 0x20 != 0))
    ensures (MachineBit(v) & 0x20 != 0) == ((v & 0x40 != 0) != (v & 1 != 0))
    ensures (MachineBit(v) & 0x40 != 0) == ((v & 0x80 != 0))
    ensures (MachineBit(v) & 0x80 != 0) == ((v & 0x100 != 0))
    ensures (MachineBit(v) & 0x100 != 0) == ((v & 0x200 != 0) != (v & 1 != 0))
    ensures (MachineBit(v) & 0x200 != 0) == ((v & 0x400 != 0) != (v & 1 != 0))
    ensures (MachineBit(v) & 0x400 != 0) == ((v & 0x800 != 0))
    ensures (MachineBit(v) & 0x800 != 0) == ((v & 0x1000 != 0))
    ensures (MachineBit(v) & 0x1000 != 0) == ((v & 0x2000 != 0))
    ensures (MachineBit(v) & 0x2000 != 0) == ((v & 0x4000 != 0))
    ensures (MachineBit(v) & 0x4000 != 0) == ((v & 0x8000 != 0))
    ensures (MachineBit(v) & 0x8000 != 0) == ((v & 0x10000 != 0) != (v & 1 != 0))
    ensures (MachineBit(v) & 0x10000 != 0) == ((v & 0x20000 != 0))
    ensures (MachineBit(v) & 0x20000 != 0) == ((v & 0x40000 != 0))
    ensures (MachineBit(v) & 0x40000 != 0) == ((v & 0x80000 != 0))
    ensures (MachineBit(v) & 0x80000 != 0) == ((v & 0x100000 != 0) != (v & 1 != 0))
    ensures (MachineBit(v) & 0x100000 != 0) == ((v & 0x200000 != 0) != (v & 1 != 0))
    ensures (MachineBit(v) & 0x200000 != 0) == ((v & 0x400000 != 0) != (v & 1 != 0))
    ensures (MachineBit(v) & 0x400000 != 0) == ((v & 0x800000 != 0))
    ensures (MachineBit(v) & 0x800000 != 0) == ((v & 0x1000000 != 0) != (v & 1 != 0))
    ensures (MachineBit(v) & 0x1000000 != 0) == ((v & 0x2000000 != 0) != (v & 1 != 0))
    ensures (MachineBit(v) & 0x2000000 != 0) == ((v & 0x4000000 != 0))
    ensures (MachineBit(v) & 0x4000000 != 0) == ((v & 0x8000000 != 0) != (v & 1 != 0))
    ensures (MachineBit(v) & 0x8000000 != 0) == ((v & 0x10000000 != 0) != (v & 1 != 0))
    ensures (MachineBit(v) & 0x10000000 != 0) == ((v & 0x20000000 != 0))
    ensures (MachineBit(v) & 0x20000000 != 0) == ((v & 0x40000000 != 0) != (v & 1 != 0))
    ensures (MachineBit(v) & 0x40000000 != 0) == ((v & 0x80000000 != 0) != (v & 1 != 0))
    ensures (MachineBit(v) & 0x80000000 != 0) == (false != (v & 1 != 0))
  {
  }

  lemma BitAt0(r: Word)
    ensures Bit(r)[0] == r[1]
    ensures Bit(r)[1] == r[2]
    ensures Bit(r)[2] == r[3]
    ensures Bit(r)[3] == r[4]
  {
  }

  lemma BitAt1(r: Word)
    ensures Bit(r)[4] == r[5]
    ensures Bit(r)[5] == (r[6] != r[0])
    ensures Bit(r)[6] == r[7]
    ensures Bit(r)[7] == r[8]
  {
  }

  lemma BitAt2(r: Word)
    ensures Bit(r)[8] == (r[9] != r[0])
    ensures Bit(r)[9] == (r[10] != r[0])
    ensures Bit(r)[10] == r[11]
    ensures Bit(r)[11] == r[12]
  {
  }

  lemma BitAt3(r: Word)
    ensures Bit(r)[12] == r[13]
    ensures Bit(r)[13] == r[14]
    ensures Bit(r)[14] == r[15]
    ensures Bit(r)[15] == (r[16] != r[0])
  {
  }

  lemma BitAt4(r: Word)
    ensures Bit(r)[16] == r[17]
    ensures Bit(r)[17] == r[18]
    ensures Bit(r)[18] == r[19]
    ensures Bit(r)[19] == (r[20] != r[0])
  {
  }

  lemma BitAt5(r: Word)
    ensures Bit(r)[20] == (r[21] != r[0])
    ensures Bit(r)[21] == (r[22] != r[0])
    ensures Bit(r)[22] == r[23]
    ensures Bit(r)[23] == (r[24] != r[0])
  {
  }

  lemma BitAt6(r: Word)
    ensures Bit(r)[24] == (r[25] != r[0])
    ensures Bit(r)[25] == r[26]
    ensures Bit(r)[26] == (r[27] != r[0])
    ensures Bit(r)[27] == (r[28] != r[0])
  {
  }

  lemma BitAt7(r: Word)
    ensures Bit(r)[28] == r[29]
    ensures Bit(r)[29] == (r[30] != r[0])
    ensures Bit(r)[30] == (r[31] != r[0])
    ensures Bit(r)[31] == r[0]
  {
  }

  /** The bitwise model computes the source's `(crc >> 1) ^ (0xEDB8_8320 & mask)`. */
  lemma BitIsMachineBit(r: Word, v: bv32)
    requires Same(r, v)
    ensures Same(Bit(r), MachineBit(v))
  {
    BitAt0(r);
    BitAt1(r);
    BitAt2(r);
    BitAt3(r);
    BitAt4(r);
    BitAt5(r);
    BitAt6(r);
    BitAt7(r);
    MachineBitAt(v);
  }

  /** Eight turns: what one byte of data does to the register. */
  function Turn(v: bv32): bv32
  {
    MachineBit(MachineBit(MachineBit(MachineBit(MachineBit(MachineBit(MachineBit(MachineBit(v))))))))
  }

  lemma BitsIsTurn(r: Word, v: bv32)
    requires Same(r, v)
    ensures Same(Bits(r, |ZERO_BYTE|), Turn(v))
  {
    var r1, v1 := Bit(r), MachineBit(v);
    BitIsMachineBit(r, v);
    var r2, v2 := Bit(r1), MachineBit(v1);
    BitIsMachineBit(r1, v1);
    var r3, v3 := Bit(r2), MachineBit(v2);
    BitIsMachineBit(r2, v2);
    var r4, v4 := Bit(r3), MachineBit(v3);
    BitIsMachineBit(r3, v3);
    var r5, v5 := Bit(r4), MachineBit(v4);
    BitIsMachineBit(r4, v4);
    var r6, v6 := Bit(r5), MachineBit(v5);
    BitIsMachineBit(r5, v5);
    var r7, v7 := Bit(r6), MachineBit(v6);
    BitIsMachineBit(r6, v6);
    BitIsMachineBit(r7, v7);
  }

  function Turns(v: bv32, n: nat): bv32
    decreases n
  {
    if n == 0 then v else Turns(Turn(v), n - 1)
  }

  /** A run of zero bytes only turns the register. */
  lemma {:induction false} ZerosTurn(e: seq<Octet>, r: Word, v: bv32)
    requires AllZero(e) && Same(r, v)
    ensures Same(Raw(e, r), Turns(v, |e|))
    decreases |e|
  {
    if e != [] {
      assert Xor(r, Wide(e[0])) == r;
      BitsIsTurn(r, v);
      ZerosTurn(e[1..], Bits(r, |e[0]|), Turn(v));
    }
  }

  /** 0x64 followed by fifteen zero bytes leaves a register whose low byte is clear. */
  lemma SixteenTurns()
    ensures Turns(0x64, 16) == 0xED70_C100
  {
    TurnsTo8();
    TurnsTo16();
    TurnsAdd(0x64, 8, 8);
  }

  lemma {:induction false} TurnsAdd(v: bv32, n: nat, m: nat)
    ensures Turns(v, n + m) == Turns(Turns(v, n), m)
    decreases n
  {
    if n > 0 {
      TurnsAdd(Turn(v), n - 1, m);
    }
  }

  lemma TurnsTo8()
    ensures Turns(0x64, 8) == 0x54A1_AE41
  {
  }

  lemma TurnsTo16()
    ensures Turns(0x54A1_AE41, 8) == 0xED70_C100
  {
  }

  // ---------------------------------------------------------------- whole data

  /** The bits of `b` are those of the machine byte `w`. */
  ghost predicate SameByte(b: Octet, w: bv8)
  {
    && b[0] == (w & 0x1 != 0)
    && b[1] == (w & 0x2 != 0)
    && b[2] == (w & 0x4 != 0)
    && b[3] == (w & 0x8 != 0)
    && b[4] == (w & 0x10 != 0)
    && b[5] == (w & 0x20 != 0)
    && b[6] == (w & 0x40 != 0)
    && b[7] == (w & 0x80 != 0)
  }

  lemma MachineXorAt(v: bv32, w: bv8)
    ensures ((v ^ (w as bv32)) & 0x1 != 0) == ((v & 0x1 != 0) != (w & 0x1 != 0))
    ensures ((v ^ (w as bv32)) & 0x2 != 0) == ((v & 0x2 != 0) != (w & 0x2 != 0))
    ensures ((v ^ (w as bv32)) & 0x4 != 0) == ((v & 0x4 != 0) != (w & 0x4 != 0))
    ensures ((v ^ (w as bv32)) & 0x8 != 0) == ((v & 0x8 != 0) != (w & 0x8 != 0))
    ensures ((v ^ (w as bv32)) & 0x10 != 0) == ((v & 0x10 != 0) != (w & 0x10 != 0))
    ensures ((v ^ (w as bv32)) & 0x20 != 0) == ((v & 0x20 != 0) != (w & 0x20 != 0))
    ensures ((v ^ (w as bv32)) & 0x40 != 0) == ((v & 0x40 != 0) != (w & 0x40 != 0))
    ensures ((v ^ (w as bv32)) & 0x80 != 0) == ((v & 0x80 != 0) != (w & 0x80 != 0))
    ensures ((v ^ (w as bv32)) & 0x100 != 0) == (v & 0x100 != 0)
    ensures ((v ^ (w as bv32)) & 0x200 != 0) == (v & 0x200 != 0)
    ensures ((v ^ (w as bv32)) & 0x400 != 0) == (v & 0x400 != 0)
    ensures ((v ^ (w as bv32)) & 0x800 != 0) == (v & 0x800 != 0)
    ensures ((v ^ (w as bv32)) & 0x1000 != 0) == (v & 0x1000 != 0)
    ensures ((v ^ (w as bv32)) & 0x2000 != 0) == (v & 0x2000 != 0)
    ensures ((v ^ (w as bv32)) & 0x4000 != 0) == (v & 0x4000 != 0)
    ensures ((v ^ (w as bv32)) & 0x8000 != 0) == (v & 0x8000 != 0)
    ensures ((v ^ (w as bv32)) & 0x10000 != 0) == (v & 0x10000 != 0)
    ensures ((v ^ (w as bv32)) & 0x20000 != 0) == (v & 0x20000 != 0)
    ensures ((v ^ (w as bv32)) & 0x40000 != 0) == (v & 0x40000 != 0)
    ensures ((v ^ (w as bv32)) & 0x80000 != 0) == (v & 0x80000 != 0)
    ensures ((v ^ (w as bv32)) & 0x100000 != 0) == (v & 0x100000 != 0)
    ensures ((v ^ (w as bv32)) & 0x200000 != 0) == (v & 0x200000 != 0)
    ensures ((v ^ (w as bv32)) & 0x400000 != 0) == (v & 0x400000 != 0)
    ensures ((v ^ (w as bv32)) & 0x800000 != 0) == (v & 0x800000 != 0)
    ensures ((v ^ (w as bv32)) & 0x1000000 != 0) == (v & 0x1000000 != 0)
    ensures ((v ^ (w as bv32)) & 0x2000000 != 0) == (v & 0x2000000 != 0)
    ensures ((v ^ (w as bv32)) & 0x4000000 != 0) == (v & 0x4000000 != 0)
    ensures ((v ^ (w as bv32)) & 0x8000000 != 0) == (v & 0x8000000 != 0)
    ensures ((v ^ (w as bv32)) & 0x10000000 != 0) == (v & 0x10000000 != 0)
    ensures ((v ^ (w as bv32)) & 0x20000000 != 0) == (v & 0x20000000 != 0)
    ensures ((v ^ (w as bv32)) & 0x40000000 != 0) == (v & 0x40000000 != 0)
    ensures ((v ^ (w as bv32)) & 0x80000000 != 0) == (v & 0x80000000 != 0)
  {
  }

  lemma XorAt0(r: Word, b: Octet)
    ensures Xor(r, Wide(b))[0] == (r[0] != b[0])
    ensures Xor(r, Wide(b))[1] == (r[1] != b[1])
    ensures Xor(r, Wide(b))[2] == (r[2] != b[2])
    ensures Xor(r, Wide(b))[3] == (r[3] != b[3])
  {
  }

  lemma XorAt1(r: Word, b: Octet)
    ensures Xor(r, Wide(b))[4] == (r[4] != b[4])
    ensures Xor(r, Wide(b))[5] == (r[5] != b[5])
    ensures Xor(r, Wide(b))[6] == (r[6] != b[6])
    ensures Xor(r, Wide(b))[7] == (r[7] != b[7])
  {
  }

  lemma XorAt2(r: Word, b: Octet)
    ensures Xor(r, Wide(b))[8] == r[8]
    ensures Xor(r, Wide(b))[9] == r[9]
    ensures Xor(r, Wide(b))[10] == r[10]
    ensures Xor(r, Wide(b))[11] == r[11]
  {
  }

  lemma XorAt3(r: Word, b: Octet)
    ensures Xor(r, Wide(b))[12] == r[12]
    ensures Xor(r, Wide(b))[13] == r[13]
    ensures Xor(r, Wide(b))[14] == r[14]
    ensures Xor(r, Wide(b))[15] == r[15]
  {
  }

  lemma XorAt4(r: Word, b: Octet)
    ensures Xor(r, Wide(b))[16] == r[16]
    ensures Xor(r, Wide(b))[17] == r[17]
    ensures Xor(r, Wide(b))[18] == r[18]
    ensures Xor(r, Wide(b))[19] == r[19]
  {
  }

  lemma XorAt5(r: Word, b: Octet)
    ensures Xor(r, Wide(b))[20] == r[20]
    ensures Xor(r, Wide(b))[21] == r[21]
    ensures Xor(r, Wide(b))[22] == r[22]
    ensures Xor(r, Wide(b))[23] == r[23]
  {
  }

  lemma XorAt6(r: Word, b: Octet)
    ensures Xor(r, Wide(b))[24] == r[24]
    ensures Xor(r, Wide(b))[25] == r[25]
    ensures Xor(r, Wide(b))[26] == r[26]
    ensures Xor(r, Wide(b))[27] == r[27]
  {
  }

  lemma XorAt7(r: Word, b: Octet)
    ensures Xor(r, Wide(b))[28] == r[28]
    ensures Xor(r, Wide(b))[29] == r[29]
    ensures Xor(r, Wide(b))[30] == r[30]
    ensures Xor(r, Wide(b))[31] == r[31]
  {
  }

  /** `crc ^= b as u32`. */
  lemma XorSame(r: Word, v: bv32, b: Octet, w: bv8)
    requires Same(r, v) && SameByte(b, w)
    ensures Same(Xor(r, Wide(b)), v ^ (w as bv32))
  {
    XorAt0(r, b);
    XorAt1(r, b);
    XorAt2(r, b);
    XorAt3(r, b);
    XorAt4(r, b);
    XorAt5(r, b);
    XorAt6(r, b);
    XorAt7(r, b);
    MachineXorAt(v, w);
  }

  /** The source's loop over the bytes. */
  function MachineRaw(bytes: seq<bv8>, crc: bv32): bv32
    decreases |bytes|
  {
    if bytes == [] then crc else MachineRaw(bytes[1..], Turn(crc ^ (bytes[0] as bv32)))
  }

  function MachineCrc(bytes: seq<bv8>): bv32
  {
    !MachineRaw(bytes, 0xFFFF_FFFF)
  }

  ghost predicate SameBytes(data: seq<Octet>, bytes: seq<bv8>)
  {
    |data| == |bytes| && forall i :: 0 <= i < |data| ==> SameByte(data[i], bytes[i])
  }

  lemma {:induction false} RawIsMachineRaw(data: seq<Octet>, bytes: seq<bv8>, r: Word, v: bv32)
    requires SameBytes(data, bytes) && Same(r, v)
    ensures Same(Raw(data, r), MachineRaw(bytes, v))
    decreases |data|
  {
    if data != [] {
      assert SameByte(data[0], bytes[0]) && SameBytes(data[1..], bytes[1..]);
      var x, y := Xor(r, Wide(data[0])), v ^ (bytes[0] as bv32);
      XorSame(r, v, data[0], bytes[0]);
      BitsIsTurn(x, y);
      RawIsMachineRaw(data[1..], bytes[1..], Bits(x, |data[0]|), Turn(y));
    }
  }

  lemma NotAt0(r: Word, v: bv32)
    requires Same(r, v)
    ensures Not(r)[0] == (!v & 0x1 != 0)
    ensures Not(r)[1] == (!v & 0x2 != 0)
    ensures Not(r)[2] == (!v & 0x4 != 0)
    ensures Not(r)[3] == (!v & 0x8 != 0)
    ensures Not(r)[4] == (!v & 0x10 != 0)
    ensures Not(r)[5] == (!v & 0x20 != 0)
    ensures Not(r)[6] == (!v & 0x40 != 0)
    ensures Not(r)[7] == (!v & 0x80 != 0)
  {
  }

  lemma NotAt1(r: Word, v: bv32)
    requires Same(r, v)
    ensures Not(r)[8] == (!v & 0x100 != 0)
    ensures Not(r)[9] == (!v & 0x200 != 0)
    ensures Not(r)[10] == (!v & 0x400 != 0)
    ensures Not(r)[11] == (!v & 0x800 != 0)
    ensures Not(r)[12] == (!v & 0x1000 != 0)
    ensures Not(r)[13] == (!v & 0x2000 != 0)
    ensures Not(r)[14] == (!v & 0x4000 != 0)
    ensures Not(r)[15] == (!v & 0x8000 != 0)
  {
  }

  lemma NotAt2(r: Word, v: bv32)
    requires Same(r, v)
    ensures Not(r)[16] == (!v & 0x10000 != 0)
    ensures Not(r)[17] == (!v & 0x20000 != 0)
    ensures Not(r)[18] == (!v & 0x40000 != 0)
    ensures Not(r)[19] == (!v & 0x80000 != 0)
    ensures Not(r)[20] == (!v & 0x100000 != 0)
    ensures Not(r)[21] == (!v & 0x200000 != 0)
    ensures Not(r)[22] == (!v & 0x400000 != 0)
    ensures Not(r)[23] == (!v & 0x800000 != 0)
  {
  }

  lemma NotAt3(r: Word, v: bv32)
    requires Same(r, v)
    ensures Not(r)[24] == (!v & 0x1000000 != 0)
    ensures Not(r)[25] == (!v & 0x2000000 != 0)
    ensures Not(r)[26] == (!v & 0x4000000 != 0)
    ensures Not(r)[27] == (!v & 0x8000000 != 0)
    ensures Not(r)[28] == (!v & 0x10000000 != 0)
    ensures Not(r)[29] == (!v & 0x20000000 != 0)
    ensures Not(r)[30] == (!v & 0x40000000 != 0)
    ensures Not(r)[31] == (!v & 0x80000000 != 0)
  {
  }

  lemma OnesSame()
    ensures Same(ONES, 0xFFFF_FFFF)
  {
  }

  /** The CRC of the bit model is the CRC the source computes on machine words, for all data. */
  lemma CrcIsMachineCrc(data: seq<Octet>, bytes: seq<bv8>)
    requires SameBytes(data, bytes)
    ensures Same(Crc32(data), MachineCrc(bytes))
  {
    OnesSame();
    RawIsMachineRaw(data, bytes, ONES, 0xFFFF_FFFF);
    var r, v := Raw(data, ONES), MachineRaw(bytes, 0xFFFF_FFFF);
    NotAt0(r, v);
    NotAt1(r, v);
    NotAt2(r, v);
    NotAt3(r, v);
  }
}
