/** Physical memory under the frame allocator, and mapping pages (memory.c:25-120, 153-168). */
module Frames {
  import opened Bits
  import opened Bitmap
  import opened PageTable
  import opened PageSteps

  const NO_PAGE: nat := 0xFFFF_FFFF

  /** A bit is set exactly when the page it stands for is in use; pages outside
      the managed range are the kernel's. */
  ghost predicate BitsAgree(bits: seq<bool>, base: nat, o: seq<Owner>) {
    && base + |bits| <= |o|
    && (forall p :: base <= p < base + |bits| ==> (bits[p - base] <==> o[p] != Free))
    && (forall p :: 0 <= p < |o| && (p < base || p >= base + |bits|) ==> o[p] == Reserved)
  }

  ghost function FreeSet(o: seq<Owner>): set<nat> {
    set p: nat | p < |o| && o[p] == Free
  }

  lemma FreeSetRetag(o: seq<Owner>, p: nat, x: Owner)
    requires p < |o| && o[p] == Free && x != Free
    ensures FreeSet(o[p := x]) == FreeSet(o) - {p} && p in FreeSet(o)
    ensures |FreeSet(o[p := x])| == |FreeSet(o)| - 1
  {
  }

  lemma FreeSetSame(o: seq<Owner>, p: nat, x: Owner)
    requires p < |o| && o[p] != Free && x != Free
    ensures FreeSet(o[p := x]) == FreeSet(o)
  {
  }

  /** Lowest free page. */
  lemma LowestFreePage(bits: seq<bool>, base: nat, o: seq<Owner>, r: int)
    requires BitsAgree(bits, base, o) && -1 <= r < |bits|
    requires r == -1 ==> forall j: nat :: !RunAt(bits, false, j, 1)
    requires r >= 0 ==> RunAt(bits, false, r, 1)
    ensures r >= 0 ==>
      && base + r < |o| && o[base + r] == Free
      && BitsAgree(WithBits(bits, r, 1, true), base, o[base + r := Single])
    ensures r == -1 ==> FreeSet(o) == {}
  {
    if r == -1 {
      forall p: nat | p < |o| ensures o[p] != Free {
        if base <= p < base + |bits| {
          assert !RunAt(bits, false, p - base, 1);
          assert bits[p - base];
        }
      }
    } else {
      assert bits[r] == false && o[base + r] == Free;
    }
  }

  class Memory {
    const bitmap: BitMap
    const base: nat
    const kdir: nat
    var mem: Mem
    ghost var owner: seq<Owner>

    ghost predicate Managed()
      reads this, bitmap.bits
    {
      && bitmap.Valid() && base >= 1
      && BitsAgree(bitmap.Bits(), base, owner)
      && |owner| == |mem| < VPAGES
    }

    ghost predicate Valid()
      reads this, bitmap.bits
    {
      Managed() && Inv(mem, owner, kdir)
    }

    /** Boot state: the managed range is free and everything else is the kernel's. */
    constructor (pages: Mem, base: nat, count: nat, kdir: nat)
      requires 1 <= base && base + count <= |pages| < VPAGES
      requires kdir < |pages| && !(base <= kdir < base + count)
      ensures Valid() && fresh(bitmap) && fresh(bitmap.bits)
      ensures mem == pages && this.base == base && bitmap.bitCount == count && this.kdir == kdir
      ensures forall p :: 0 <= p < |pages| ==> owner[p] == if base <= p < base + count then Free else Reserved
    {
      this.base, this.kdir, mem := base, kdir, pages;
      bitmap := new BitMap(count, false);
      owner := seq(|pages|, p => if base <= p < base + count then Free else Reserved);
    }

    /** `addr_alloc_page` for one page: the lowest free one, or all ones. */
    method AddrAllocPage() returns (addr: nat)
      requires Valid()
      modifies bitmap.bits, this`owner
      ensures Valid()
      ensures FreeSet(old(owner)) == {} ==> addr == NO_PAGE && owner == old(owner)
      ensures FreeSet(old(owner)) != {} ==>
                var p := addr / PAGE;
                && addr == p * PAGE && base <= p < |mem| && old(owner)[p] == Free && owner == old(owner)[p := Single]
                && (forall q :: 0 <= q < p ==> old(owner)[q] != Free)
                && |FreeSet(owner)| == |FreeSet(old(owner))| - 1
    {
      hide WithBits, FreeSet, Inv, BitsAgree, RunAt;
      addr := NO_PAGE;
      assert Inspected(1) == 1;
      var pageIndex := bitmap.AllocNbits(false, 1);
      LowestFreePage(old(bitmap.Bits()), base, owner, pageIndex);
      if pageIndex >= 0 {
        addr := (base + pageIndex) * PAGE;
        Retag(mem, owner, kdir, base + pageIndex, Single);
        FreeSetRetag(owner, base + pageIndex, Single);
        BelowAreUsed(old(bitmap.Bits()), base, owner, pageIndex);
        owner := owner[base + pageIndex := Single];
      }
    }

    /** `addr_free_page` for one page. It must be in use, so nothing is freed twice. */
    method AddrFreePage(addr: nat)
      requires Managed() && addr % PAGE == 0
      requires base <= addr / PAGE < base + bitmap.bitCount && owner[addr / PAGE] != Free
      modifies bitmap.bits, this`owner
      ensures Managed() && owner == old(owner)[addr / PAGE := Free]
    {
      var pageIndex := (addr - base * PAGE) / PAGE;
      bitmap.SetBit(pageIndex, 1, false);
      owner := owner[addr / PAGE := Free];
    }

    method MemoryAllocOnePage() returns (addr: nat)
      requires Valid()
      modifies bitmap.bits, this`owner
      ensures Valid()
      ensures FreeSet(old(owner)) == {} ==> addr == NO_PAGE && owner == old(owner)
      ensures FreeSet(old(owner)) != {} ==>
        && addr % PAGE == 0
        && var p := addr / PAGE;
        base <= p < |mem| && old(owner)[p] == Free && owner == old(owner)[p := Single]
    {
      addr := AddrAllocPage();
    }

    /** `memory_free_one_page` for a kernel address. */
    method MemoryFreeOnePage(addr: nat)
      requires Valid() && addr % PAGE == 0 && addr / PAGE < |mem| && owner[addr / PAGE] == Single
      requires base <= addr / PAGE < base + bitmap.bitCount
      modifies bitmap.bits, this`owner
      ensures Valid() && owner == old(owner)[addr / PAGE := Free]
    {
      Retag(mem, owner, kdir, addr / PAGE, Free);
      AddrFreePage(addr);
    }
  }

  lemma BelowAreUsed(bits: seq<bool>, base: nat, o: seq<Owner>, r: int)
    requires BitsAgree(bits, base, o) && 0 <= r < |bits|
    requires forall j: nat :: j < r ==> !RunAt(bits, false, j, 1)
    ensures forall q :: 0 <= q < base + r ==> o[q] != Free
  {
    forall q | base <= q < base + r ensures o[q] != Free {
      assert !RunAt(bits, false, q - base, 1);
      assert bits[q - base];
    }
  }
}
