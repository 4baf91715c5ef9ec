/** kernel/mmap.c: the bitmap of 4 KiB frames and its moving cursor. */
module FrameAllocation {
  import opened MachineWords

  const PAGE_SIZE: int := 4096
  const ALLOC_START: int := 0x40_0000
  const BITMAP_BYTES: int := 0x2_0000

  /** `MAX_PAGES = (available_memory - ALLOC_START) / PAGE_SIZE`, in 32 bits. */
  function MaxPages(availableMemory: u32): u32 {
    ((availableMemory - ALLOC_START) % TWO32) / PAGE_SIZE
  }

  /** `ALLOC_START + i * PAGE_SIZE`, in 32 bits. */
  function FrameAddress(i: nat): u32 {
    (ALLOC_START + i * PAGE_SIZE) % TWO32
  }

  /** The pool is all that lies behind the first 4 MiB, in whole pages. */
  lemma PoolPages(availableMemory: u32, i: nat)
    requires 0x40_0000 <= availableMemory
    ensures i < MaxPages(availableMemory) <==> 0x40_0000 + 4096 * (i + 1) <= availableMemory
    ensures i < MaxPages(availableMemory) ==> FrameAddress(i) == 0x40_0000 + 4096 * i
  {
  }

  lemma PoolHolds(availableMemory: u32, n: nat)
    requires 0x40_0000 <= availableMemory
    ensures n <= MaxPages(availableMemory) <==> 0x40_0000 + 4096 * n <= availableMemory
    ensures MaxPages(availableMemory) < 0xF_FC00
  {
  }

  function Mask(k: nat): bv8
    requires k < 8
  {
    1 << k
  }

  predicate Bit(b: bv8, k: nat)
    requires k < 8
  {
    b & Mask(k) != 0
  }

  lemma SetBitEffect(b: bv8, j: nat, k: nat)
    requires j < 8 && k < 8
    ensures Bit(b | Mask(j), k) <==> j == k || Bit(b, k)
  {
    assert Mask(0) == 1 && Mask(1) == 2 && Mask(2) == 4 && Mask(3) == 8;
    assert Mask(4) == 16 && Mask(5) == 32 && Mask(6) == 64 && Mask(7) == 128;
    Distinct(b, Mask(j), Mask(k));
  }

  lemma Distinct(b: bv8, m: bv8, n: bv8)
    requires m in {1, 2, 4, 8, 16, 32, 64, 128} && n in {1, 2, 4, 8, 16, 32, 64, 128}
    ensures (b | m) & n != 0 <==> m == n || b & n != 0
  {
  }

  /** No address of the pool is mistaken for the null that reports exhaustion,
      except on a machine whose memory ends between the first page and ALLOC_START:
      there the subtraction wraps and the pool runs through address 0. */
  lemma NullIsUnambiguous(availableMemory: u32)
    ensures (forall i :: 0 <= i < MaxPages(availableMemory) ==> FrameAddress(i) != 0)
       <==> !(PAGE_SIZE <= availableMemory < ALLOC_START)
    ensures MaxPages(availableMemory) / 8 < BITMAP_BYTES
  {
    if PAGE_SIZE <= availableMemory < ALLOC_START {
      assert FrameAddress(0xF_FC00) == 0;
    }
  }

  class FrameAllocator {
    const bitmap: array<bv8>
    var currentIdx: u32
    const maxPages: u32
    ghost var next: nat

    predicate Used(i: nat)
      requires i < 8 * bitmap.Length
      reads bitmap
    {
      Bit(bitmap[i / 8], i % 8)
    }

    /** The used pages are a prefix of the bitmap, and the cursor has not run past it. */
    ghost predicate Valid()
      reads this, bitmap
    {
      && bitmap.Length == BITMAP_BYTES
      && next <= maxPages < 8 * BITMAP_BYTES
      && 8 * currentIdx <= next
      && forall i :: 0 <= i < 8 * BITMAP_BYTES ==> (Used(i) <==> i < next)
    }

    constructor (availableMemory: u32)
      ensures Valid() && fresh(bitmap)
      ensures next == 0 && maxPages == MaxPages(availableMemory)
    {
      bitmap := new bv8[BITMAP_BYTES](i => 0);
      currentIdx := 0;
      maxPages := MaxPages(availableMemory);
      next := 0;
    }

    method SetPageUsed(i: u32)
      requires i < 8 * bitmap.Length
      modifies bitmap, `currentIdx
      ensures forall j :: 0 <= j < 8 * bitmap.Length ==> (Used(j) <==> j == i || old(Used(j)))
      ensures currentIdx == i / 8
    {
      var byte := bitmap[i / 8];
      bitmap[i / 8] := byte | Mask(i % 8);
      currentIdx := i / 8;
      forall j: int | 0 <= j < 8 * bitmap.Length
        ensures Used(j) <==> j == i || old(Used(j))
      {
        if j / 8 == i / 8 {
          SetBitEffect(byte, i % 8, j % 8);
        }
      }
    }

    /** The scan from the cursor finds what a scan from page 0 would find. */
    method AllocPage() returns (address: u32)
      requires Valid()
      modifies this, bitmap
      ensures Valid()
      ensures old(next) == maxPages ==>
        && address == 0 && next == old(next)
        && forall j :: 0 <= j < maxPages ==> Used(j)
      ensures old(next) < maxPages ==>
        && address == FrameAddress(old(next)) && next == old(next) + 1
        && !old(Used(next)) && forall j :: 0 <= j < old(next) ==> old(Used(j))
    {
      var i := 8 * currentIdx;
      while i < maxPages
        invariant i <= next && unchanged(this) && unchanged(bitmap)
      {
        if !Used(i) {
          SetPageUsed(i);
          next := next + 1;
          return FrameAddress(i);
        }
        i := i + 1;
      }
      return 0;
    }
  }
}
