/**
 The physical frame allocator (kernel/src/mm/pmm.rs).

 Each 64-bit bitmap word is modelled by its 64 bits, so `w & (1 << b)` is `w[b]`.
 A frame is named by its frame number, the physical address divided by 4096.
 */
module Pmm {
  import opened Common


  const PAGE_SIZE: nat := 4096
  const WORD_BITS: nat := 64
  const USIZE: nat := 0x1_0000_0000_0000_0000

  type Word = w: seq<bool> | |w| == WORD_BITS witness seq(WORD_BITS, _ => false)

  predicate Between(lo: nat, f: nat, hi: nat) { lo <= f < hi }

  ghost function Interval(lo: nat, hi: nat): set<nat>
  {
    set f: nat | lo <= f < hi && Between(lo, f, hi)
  }

  lemma {:induction false} IntervalSize(lo: nat, hi: nat)
    requires lo <= hi
    ensures |Interval(lo, hi)| == hi - lo
    decreases hi - lo
  {
    if lo < hi {
      IntervalSize(lo + 1, hi);
      assert Interval(lo, hi) == {lo} + Interval(lo + 1, hi);
    }
  }

  lemma {:induction false} SubsetSize<T>(a: set<T>, b: set<T>)
    requires a <= b
    ensures |a| <= |b|
    ensures |a| == |b| <==> a == b
  {
    if a == {} {
    } else {
      var x :| x in a;
      SubsetSize(a - {x}, b - {x});
      assert a == (a - {x}) + {x} && b == (b - {x}) + {x};
    }
  }

  /** PAGE_SIZE-rounding up, the source's `(x + 4095) & !4095`. */
  function AlignUp(x: nat): (r: nat)
    ensures x <= r < x + PAGE_SIZE
    ensures r % PAGE_SIZE == 0
  {
    (x + PAGE_SIZE - 1) / PAGE_SIZE * PAGE_SIZE
  }

  class FrameAllocator {
    const start: nat
    const totalFrames: nat
    const bitmap: array<Word>
    var nextFree: nat

    ghost predicate Valid()
      reads this
    {
      && start % PAGE_SIZE == 0
      && 0 < start
      && start + totalFrames * PAGE_SIZE <= USIZE
      && totalFrames <= bitmap.Length * WORD_BITS
      && nextFree <= totalFrames
    }

    predicate Used(i: nat)
      requires i < bitmap.Length * WORD_BITS
      reads bitmap
    {
      bitmap[i / WORD_BITS][i % WORD_BITS]
    }

    ghost function First(): nat
    {
      start / PAGE_SIZE
    }

    /** The frame numbers this allocator hands out. */
    ghost function Managed(): set<nat>
    {
      Interval(First(), First() + totalFrames)
    }

    /** The frame numbers currently handed out. */
    ghost function Allocated(): set<nat>
      requires totalFrames <= bitmap.Length * WORD_BITS
      reads bitmap
    {
      set f: nat | First() <= f < First() + totalFrames && UsedFrame(f)
    }

    ghost predicate UsedFrame(f: nat)
      requires totalFrames <= bitmap.Length * WORD_BITS
      requires First() <= f < First() + totalFrames
      reads bitmap
    {
      Used(f - First())
    }

    ghost predicate Free(i: nat)
      requires totalFrames <= bitmap.Length * WORD_BITS
      reads bitmap
    {
      i < totalFrames && !Used(i)
    }

    /** All of `count` consecutive indices from `i` are free. */
    ghost predicate FreeRun(i: nat, count: nat)
      requires totalFrames <= bitmap.Length * WORD_BITS
      reads bitmap
    {
      i + count <= totalFrames && forall j :: i <= j < i + count ==> Free(j)
    }

    lemma Room()
      requires Valid()
      ensures |Allocated()| <= totalFrames
      ensures |Allocated()| == totalFrames <==> Allocated() == Managed()
    {
      SubsetSize(Allocated(), Managed());
      IntervalSize(First(), First() + totalFrames);
    }

    /** Layout: the bitmap sits between the kernel and the first managed frame. */
    constructor (kernelEnd: nat, end: nat)
      requires 0 < kernelEnd
      requires AlignUp(kernelEnd) <= end <= USIZE
      requires AlignUp(AlignUp(kernelEnd) + ((end - AlignUp(kernelEnd)) / PAGE_SIZE + 63) / 64 * 8) <= end
      ensures Valid() && fresh(bitmap)
      ensures Allocated() == {} && nextFree == 0
      ensures kernelEnd + bitmap.Length * 8 <= start
      ensures start + totalFrames * PAGE_SIZE <= end < start + (totalFrames + 1) * PAGE_SIZE
    {
      var begin := AlignUp(kernelEnd);
      var frames := (end - begin) / PAGE_SIZE;
      var words := (frames + 63) / 64;
      var managed := AlignUp(begin + words * 8);
      var zero: Word := seq(WORD_BITS, _ => false);
      start := managed;
      totalFrames := (end - managed) / PAGE_SIZE;
      bitmap := new Word[words](_ => zero);
      nextFree := 0;
      new;
      assert forall f :: First() <= f < First() + totalFrames ==> !UsedFrame(f);
    }

    /** Next-fit: the first free frame at or after `nextFree`, else the first free frame. */
    method Alloc() returns (r: Option<nat>)
      requires Valid()
      modifies this`nextFree, bitmap
      ensures Valid()
      ensures r.None? ==> old(Allocated()) == Managed() && Allocated() == old(Allocated())
      ensures r.Some? ==>
        && r.value % PAGE_SIZE == 0
        && r.value / PAGE_SIZE in Managed() - old(Allocated())
        && Allocated() == old(Allocated()) + {r.value / PAGE_SIZE}
        && var i := r.value / PAGE_SIZE - First();
           && nextFree == i + 1
           && (i < old(nextFree) ==> forall j :: old(nextFree) <= j < totalFrames ==> old(Used(j)))
           && forall j :: (if i < old(nextFree) then 0 else old(nextFree)) <= j < i ==> old(Used(j))
    {
      for i := nextFree to totalFrames
        invariant forall j :: nextFree <= j < i ==> Used(j)
        invariant nextFree == old(nextFree)
        invariant bitmap[..] == old(bitmap[..])
      {
        if !Used(i) {
          Mark(i);
          return Some(start + i * PAGE_SIZE);
        }
      }
      for i := 0 to nextFree
        invariant forall j :: 0 <= j < i ==> Used(j)
        invariant nextFree == old(nextFree)
        invariant bitmap[..] == old(bitmap[..])
      {
        if !Used(i) {
          Mark(i);
          return Some(start + i * PAGE_SIZE);
        }
      }
      return None;
    }

    method Mark(i: nat)
      requires Valid()
      requires i < totalFrames
      modifies this`nextFree, bitmap
      ensures Valid()
      ensures nextFree == i + 1
      ensures forall j :: 0 <= j < totalFrames ==> (Used(j) <==> j == i || old(Used(j)))
      ensures Allocated() == old(Allocated()) + {First() + i}
    {
      var w, b := i / WORD_BITS, i % WORD_BITS;
      bitmap[w] := bitmap[w][b := true];
      nextFree := i + 1;
    }

    /** The leftmost run of `count` free frames, or None when there is none. */
    method AllocContiguous(count: nat) returns (r: Option<nat>)
      requires Valid()
      modifies this`nextFree, bitmap
      ensures Valid()
      ensures r.None? ==> Allocated() == old(Allocated())
      ensures r.None? ==> count == 0 || forall i: nat :: !old(FreeRun(i, count))
      ensures r.Some? ==>
        && count > 0
        && r.value % PAGE_SIZE == 0
        && First() <= r.value / PAGE_SIZE
        && var i := r.value / PAGE_SIZE - First();
           && old(FreeRun(i, count))
           && (forall j :: 0 <= j < i ==> !old(FreeRun(j, count)))
           && Allocated() == old(Allocated()) + Interval(First() + i, First() + i + count)
    {
      if count == 0 {
        return None;
      }
      var found := FindRun(count);
      assert forall i: nat :: old(FreeRun(i, count)) == FreeRun(i, count);
      if found == None {
        return None;
      }
      MarkRun(found.value, count);
      return Some(start + found.value * PAGE_SIZE);
    }

    /** The scan of alloc_contiguous: a run is grown bit by bit and dropped at the first used frame. */
    method FindRun(count: nat) returns (r: Option<nat>)
      requires Valid() && count > 0
      ensures r.None? ==> forall i: nat :: !FreeRun(i, count)
      ensures r.Some? ==> FreeRun(r.value, count) && forall j :: 0 <= j < r.value ==> !FreeRun(j, count)
    {
      var runStart, runLength := 0, 0;
      for i := 0 to totalFrames
        invariant runLength < count
        invariant runLength > 0 ==> runStart + runLength == i
        invariant runLength > 0 ==> forall j :: runStart <= j < i ==> !Used(j)
        invariant runLength == 0 && i > 0 ==> !Free(i - 1)
        invariant runLength > 0 && runStart > 0 ==> !Free(runStart - 1)
        invariant forall j :: 0 <= j && j + count <= i ==> !FreeRun(j, count)
      {
        if !Used(i) {
          if runLength == 0 {
            runStart := i;
          }
          runLength := runLength + 1;
          if runLength == count {
            return Some(runStart);
          }
        } else {
          runLength := 0;
          assert !Free(i);
        }
      }
      return None;
    }

    method MarkRun(runStart: nat, count: nat)
      requires Valid()
      requires runStart + count <= totalFrames
      modifies this`nextFree, bitmap
      ensures Valid()
      ensures Allocated() == old(Allocated()) + Interval(First() + runStart, First() + runStart + count)
    {
      for j := runStart to runStart + count
        invariant Valid()
        invariant Allocated() == old(Allocated()) + Interval(First() + runStart, First() + j)
      {
        Mark(j);
      }
      nextFree := runStart + count;
    }

    /** `frame - self.start` wraps below `start`; such an index is past every frame and ignored. */
    method Dealloc(frame: nat)
      requires Valid()
      modifies this`nextFree, bitmap
      ensures Valid()
      ensures Allocated() == old(Allocated()) - {frame / PAGE_SIZE}
    {
      var idx := (if frame < start then frame + USIZE - start else frame - start) / PAGE_SIZE;
      if idx < totalFrames {
        var w, b := idx / WORD_BITS, idx % WORD_BITS;
        bitmap[w] := bitmap[w][b := false];
        if idx < nextFree {
          nextFree := idx;
        }
      }
    }
  }
}
