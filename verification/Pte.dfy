/**
 Page-table entries of x86_64 (kernel/src/mm/vmm.rs).

 An entry is modelled by its bit fields: the 40-bit frame number of bits 12-51 and
 the ten named flag bits; no code reads the remaining bits.  OR-ing two entries is
 then a field-wise OR.
 */
module Pte {
  datatype Flags = Flags(
    present: bool, writable: bool, user: bool, pwt: bool, pcd: bool,
    accessed: bool, dirty: bool, ps: bool, global: bool, nx: bool)

  datatype Entry = Entry(ppn: nat, flags: Flags)

  const NO_FLAGS := Flags(false, false, false, false, false, false, false, false, false, false)
  const NON_LEAF_FLAGS := NO_FLAGS.(present := true, writable := true, user := true)
  const ZERO := Entry(0, NO_FLAGS)

  /** Frame numbers fit in 40 bits. */
  const PPN_LIMIT: nat := 0x100_0000_0000

  /**
   The entry for a physical address: bits 12-51 are the frame number, bit 63 is NX, and bits 52-62
   are read by no code.
   */
  function Encode(pa: nat, flags: Flags): Entry
  {
    Entry(pa / 0x1000 % PPN_LIMIT, flags.(nx := flags.nx || pa / 0x8000_0000_0000_0000 % 2 == 1))
  }

  /** The entry names the frame of the address and has the given flags exactly for 52-bit addresses. */
  lemma EncodeExact(pa: nat, flags: Flags)
    ensures Encode(pa, flags).ppn == pa / 0x1000 <==> pa < 0x10_0000_0000_0000
    ensures pa < 0x10_0000_0000_0000 ==> Encode(pa, flags) == Entry(pa / 0x1000, flags)
  {
  }

  /** Bitwise OR of two numbers. */
  function Or(a: nat, b: nat): nat
  {
    if a == 0 then b
    else if b == 0 then a
    else 2 * Or(a / 2, b / 2) + (if a % 2 == 1 || b % 2 == 1 then 1 else 0)
  }

  function OrFlags(a: Flags, b: Flags): Flags
  {
    Flags(a.present || b.present, a.writable || b.writable, a.user || b.user,
          a.pwt || b.pwt, a.pcd || b.pcd, a.accessed || b.accessed, a.dirty || b.dirty,
          a.ps || b.ps, a.global || b.global, a.nx || b.nx)
  }

  /** The `|` of two raw entries. */
  function OrEntry(a: Entry, b: Entry): Entry
  {
    Entry(Or(a.ppn, b.ppn), OrFlags(a.flags, b.flags))
  }

  /** Sub-entry `i` of a split 2MB leaf: its address OR-ed with the whole old entry minus PS. */
  function SplitEntry(e: Entry, i: nat): Entry
  {
    OrEntry(Entry(e.ppn + i, NO_FLAGS), e.(flags := e.flags.(ps := false)))
  }

  /** The low `k` bits of `p` are zero. */
  predicate Aligned(p: nat, k: nat)
  {
    k == 0 || (p % 2 == 0 && Aligned(p / 2, k - 1))
  }

  /** `i` has at most `k` bits. */
  predicate Narrow(i: nat, k: nat)
  {
    if k == 0 then i == 0 else Narrow(i / 2, k - 1)
  }

  lemma Aligned9(p: nat)
    ensures Aligned(p, 9) <==> p % 512 == 0
  {
    AlignedBy3(p, 6);
    AlignedBy3(p / 8, 3);
    AlignedBy3(p / 8 / 8, 0);
    Mod512(p);
  }

  lemma Mod512(p: nat)
    ensures p % 512 == 0 <==> p % 8 == 0 && p / 8 % 8 == 0 && p / 8 / 8 % 8 == 0
  {
    var q, r := p / 512, p % 512;
    assert p / 8 == 64 * q + r / 8 && p % 8 == r % 8;
    assert p / 8 / 8 == 8 * q + r / 64 && p / 8 % 8 == r / 8 % 8;
  }

  lemma AlignedBy3(p: nat, k: nat)
    ensures Aligned(p, k + 3) <==> p % 8 == 0 && Aligned(p / 8, k)
  {
    assert Aligned(p, k + 3) <==> p % 2 == 0 && Aligned(p / 2, k + 2);
    assert Aligned(p / 2, k + 2) <==> p / 2 % 2 == 0 && Aligned(p / 2 / 2, k + 1);
    assert Aligned(p / 2 / 2, k + 1) <==> p / 2 / 2 % 2 == 0 && Aligned(p / 2 / 2 / 2, k);
    assert p / 2 / 2 / 2 == p / 8;
  }

  lemma Narrow9(i: nat)
    requires i < 512
    ensures Narrow(i, 9)
  {
    NarrowBy3(i, 6);
    NarrowBy3(i / 8, 3);
    NarrowBy3(i / 64, 0);
  }

  lemma NarrowBy3(i: nat, k: nat)
    ensures Narrow(i, k + 3) <==> Narrow(i / 8, k)
  {
    assert Narrow(i, k + 3) <==> Narrow(i / 2, k + 2);
    assert Narrow(i / 2, k + 2) <==> Narrow(i / 2 / 2, k + 1);
    assert Narrow(i / 2 / 2, k + 1) <==> Narrow(i / 2 / 2 / 2, k);
    assert i / 2 / 2 / 2 == i / 8;
  }

  lemma {:induction false} OrSelf(a: nat)
    ensures Or(a, a) == a
  {
    if a > 0 {
      OrSelf(a / 2);
    }
  }

  lemma OrStep(a: nat, b: nat)
    ensures Or(a, b) / 2 == Or(a / 2, b / 2)
    ensures Or(a, b) % 2 == 1 <==> a % 2 == 1 || b % 2 == 1
  {
  }

  /** OR-ing a base with base + offset adds nothing when the base leaves room for the offset. */
  lemma {:induction false} OrOffset(p: nat, i: nat, k: nat)
    requires Aligned(p, k)
    requires Narrow(i, k)
    ensures Or(p + i, p) == p + i
  {
    if k == 0 {
      OrSelf(p);
    } else {
      OrOffset(p / 2, i / 2, k - 1);
      OrStep(p + i, p);
      assert (p + i) / 2 == p / 2 + i / 2;
    }
  }

  /** Low zero bits of an OR are low zero bits of its operands. */
  lemma {:induction false} OrLowZero(a: nat, b: nat, k: nat)
    requires Aligned(Or(a, b), k)
    ensures Aligned(b, k)
  {
    if k > 0 {
      OrStep(a, b);
      OrLowZero(a / 2, b / 2, k - 1);
    }
  }

  lemma RoundedUp(p: nat)
    ensures (p + (512 - p % 512)) % 512 == 0
  {
  }

  /** In a leaf that is not 2MB-aligned the sub-entry for the next aligned frame is wrong. */
  lemma UnalignedSplit(p: nat)
    requires p % 512 != 0
    ensures var i := 512 - p % 512; Or(p + i, p) != p + i
  {
    var a := p + (512 - p % 512);
    RoundedUp(p);
    Aligned9(a);
    Aligned9(p);
    if Aligned(Or(a, p), 9) {
      OrLowZero(a, p, 9);
    }
  }

  /** In an aligned one they all are right. */
  lemma AlignedSplit(p: nat, i: nat)
    requires p % 512 == 0 && i < 512
    ensures Or(p + i, p) == p + i
  {
    Aligned9(p);
    Narrow9(i);
    OrOffset(p, i, 9);
  }

  /**
   The split is right exactly for 2MB-aligned leaves: sub-entry i names the i-th frame of
   the large page, for every i, if and only if the leaf's frame number is a multiple of 512.
   */
  lemma SplitExact(e: Entry)
    ensures (forall i :: 0 <= i < 512 ==> SplitEntry(e, i).ppn == e.ppn + i) <==> e.ppn % 512 == 0
    ensures forall i :: 0 <= i < 512 ==> SplitEntry(e, i).flags == e.flags.(ps := false)
  {
    if e.ppn % 512 == 0 {
      forall i | 0 <= i < 512
        ensures SplitEntry(e, i).ppn == e.ppn + i
      {
        AlignedSplit(e.ppn, i);
      }
    } else {
      UnalignedSplit(e.ppn);
      assert SplitEntry(e, 512 - e.ppn % 512).ppn != e.ppn + (512 - e.ppn % 512);
    }
  }
}
