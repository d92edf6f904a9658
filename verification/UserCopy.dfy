/** Storing into another space through its page tables: translation, copying and the
    argument block of a new program (memory.c:328-361, task.c:548-567). */
module UserCopy {
  import opened Bits
  import opened PageTable
  import opened PageSteps
  import opened Frames
  import opened Uvm
  import opened UvmDestroy

  /** Address `va` is a user address of a mapped page. */
  ghost predicate Reach(m: Mem, d: nat, va: int)
    requires d < |m|
  {
    && USER_BASE * PAGE <= va < TWO32
    && Mapped(m, d, va / PAGE) && PageOf(m, d, va / PAGE) < |m|
  }

  /** The byte a program in space `d` reads at `va`. */
  ghost function VirtByte(m: Mem, d: nat, va: int): Byte
    requires d < |m| && Reach(m, d, va)
  {
    m[PageOf(m, d, va / PAGE)][va % PAGE]
  }

  /** Storing `b` at `to` in space `d` changed those bytes and nothing else: no
      translation, no other byte of the space, no page outside it. */
  ghost predicate Stored(m: Mem, m': Mem, o: seq<Owner>, d: nat, to: nat, b: seq<Byte>) {
    && |m| == |m'| == |o| && d < |m| && o[d] == Dir
    && SameTables(m, m', o)
    && (forall x :: 0 <= x < |m| && !(o[x].User? && o[x].d == d) ==> m'[x] == m[x])
    && (forall va :: Reach(m, d, va) ==>
          && Reach(m', d, va)
          && VirtByte(m', d, va) == if to <= va < to + |b| then b[va - to] else VirtByte(m, d, va))
  }

  lemma StoredNothing(m: Mem, o: seq<Owner>, d: nat, to: nat)
    requires |m| == |o| && d < |m| && o[d] == Dir
    ensures Stored(m, m, o, d, to, [])
  {
  }

  /** Consecutive stores are one store. */
  lemma StoredTwice(m: Mem, m1: Mem, m2: Mem, o: seq<Owner>, d: nat, to: nat, a: seq<Byte>, b: seq<Byte>)
    requires Stored(m, m1, o, d, to, a) && Stored(m1, m2, o, d, to + |a|, b)
    ensures Stored(m, m2, o, d, to, a + b)
  {
    hide Pde, Pte, Reach, VirtByte;
  }

  function Splice(p: Page, off: nat, b: seq<Byte>): Page
    requires off + |b| <= PAGE
  {
    p[..off] + b + p[off + |b|..]
  }

  /** Writing inside one mapped page, at its physical address, is a store at its virtual address. */
  lemma SpliceStores(m: Mem, o: seq<Owner>, kdir: nat, d: nat, to: nat, b: seq<Byte>)
    requires Inv(m, o, kdir) && d < |m| && o[d] == Dir && Reach(m, d, to) && to % PAGE + |b| <= PAGE
    ensures var p := PageOf(m, d, to / PAGE);
      var m' := m[p := Splice(m[p], to % PAGE, b)];
      && o[p] == User(d, to / PAGE)
      && Inv(m', o, kdir) && Stored(m, m', o, d, to, b)
  {
    hide Pde, Pte, GetWord, Splice;
    var p := PageOf(m, d, to / PAGE);
    DataWrite(m, o, kdir, p, Splice(m[p], to % PAGE, b));
    var m' := m[p := Splice(m[p], to % PAGE, b)];
    forall va | Reach(m, d, va)
      ensures Reach(m', d, va) &&
        VirtByte(m', d, va) == if to <= va < to + |b| then b[va - to] else VirtByte(m, d, va)
    {
      SpliceByte(m, o, kdir, d, to, b, va);
    }
  }

  lemma SpliceByte(m: Mem, o: seq<Owner>, kdir: nat, d: nat, to: nat, b: seq<Byte>, va: int)
    requires Inv(m, o, kdir) && d < |m| == |o| && o[d] == Dir
    requires Reach(m, d, to) && to % PAGE + |b| <= PAGE && Reach(m, d, va)
    requires var p := PageOf(m, d, to / PAGE);
      var m' := m[p := Splice(m[p], to % PAGE, b)]; SameTables(m, m', o)
    ensures var p := PageOf(m, d, to / PAGE);
      var m' := m[p := Splice(m[p], to % PAGE, b)];
      Reach(m', d, va) && VirtByte(m', d, va) == if to <= va < to + |b| then b[va - to] else VirtByte(m, d, va)
  {
    hide Pde, Pte, GetWord;
    var p := PageOf(m, d, to / PAGE);
    var m' := m[p := Splice(m[p], to % PAGE, b)];
    var vp := va / PAGE;
    assert IsUser(vp);
    assert Pte(m', d, vp) == Pte(m, d, vp);
    if vp == to / PAGE {
      assert va - to == va % PAGE - to % PAGE;
    } else {
      FramesDistinct(m, o, kdir, d, vp, d, to / PAGE);
    }
  }

  // ----- memory_get_paddr -----

  function Paddr(m: Mem, d: nat, vaddr: Word): nat
    requires d < |m| && IsUser(vaddr / PAGE)
  {
    if Present(Pde(m, d, vaddr / PAGE / 1024)) then PageOf(m, d, vaddr / PAGE) * PAGE + vaddr % PAGE else 0
  }

  /** The answer is 0 or a translation exactly when the page has no table or is mapped, or for
      the first byte of a page. Else it is the offset, an address in physical page 0. */
  lemma PaddrHonestIff(m: Mem, o: seq<Owner>, kdir: nat, d: nat, vaddr: Word)
    requires Inv(m, o, kdir) && d < |m| && o[d] == Dir && IsUser(vaddr / PAGE)
    ensures Paddr(m, d, vaddr) == 0 || Mapped(m, d, vaddr / PAGE)
       <==> !Present(Pde(m, d, vaddr / PAGE / 1024)) || Mapped(m, d, vaddr / PAGE) || vaddr % PAGE == 0
    ensures Present(Pde(m, d, vaddr / PAGE / 1024)) && !Mapped(m, d, vaddr / PAGE) ==>
      Paddr(m, d, vaddr) == vaddr % PAGE
  {
    hide Pde, Pte;
    assert Mapped(m, d, vaddr / PAGE) || Pte(m, d, vaddr / PAGE) == 0;
  }

  /** So it is for every byte but the first of a page that is not mapped and lies in the same
      table as a page just mapped. */
  lemma NeighbourAnswered(m: Mem, o: seq<Owner>, m': Mem, o': seq<Owner>, kdir: nat, d: nat, vp: nat, p: nat, w: Word,
                          vaddr: Word)
    requires PageMapped(m, o, m', o', d, vp, p, w) && Inv(m', o', kdir) && d < |m'| && o'[d] == Dir
    requires vaddr / PAGE / 1024 == vp / 1024 && IsUser(vaddr / PAGE) && !Mapped(m', d, vaddr / PAGE)
    requires vaddr % PAGE != 0
    ensures Paddr(m', d, vaddr) == vaddr % PAGE && Paddr(m', d, vaddr) != 0
  {
    hide Pde, Pte, Mapped;
    PaddrHonestIff(m', o', kdir, d, vaddr);
  }

  /** `memory_get_paddr`: zero when the page has no table; otherwise the entry's frame
      and the offset, whether or not the entry is present. */
  method MemoryGetPaddr(ms: Memory, d: nat, vaddr: Word) returns (paddr: nat)
    requires ms.Valid() && d < |ms.mem| && ms.owner[d] == Dir && IsUser(vaddr / PAGE)
    modifies ms`mem, ms`owner, ms.bitmap.bits
    ensures ms.Valid() && ms.mem == old(ms.mem) && ms.owner == old(ms.owner)
    ensures paddr == Paddr(ms.mem, d, vaddr)
  {
    hide GetWord, Inv, BitsAgree, And;
    var found, t, j := FindPte(ms, d, vaddr, false);
    if !found {
      return 0;
    }
    OffsetMask(vaddr);
    var pte := GetWord(ms.mem[t], j);
    assert pte == Pte(ms.mem, d, vaddr / PAGE);
    return FrameOf(pte) * PAGE + And(vaddr, PAGE - 1);
  }

  lemma OffsetMask(va: Word)
    ensures And(va, PAGE - 1) == va % PAGE
  {
    hide And, Pow2;
    Pow2Values();
    AndLowMask(va, 12);
  }

  /** For a mapped page the answer is its translation, and never zero. */
  lemma PaddrTranslates(bits: seq<bool>, base: nat, m: Mem, o: seq<Owner>, kdir: nat, d: nat, vaddr: Word)
    requires Inv(m, o, kdir) && BitsAgree(bits, base, o) && base >= 1
    requires d < |m| && o[d] == Dir && IsUser(vaddr / PAGE) && Mapped(m, d, vaddr / PAGE)
    ensures vaddr / PAGE / 1024 < 1024 && Present(Pde(m, d, vaddr / PAGE / 1024))
    ensures 1 <= PageOf(m, d, vaddr / PAGE) < |m| && Reach(m, d, vaddr)
  {
    hide GetWord;
    InRange(bits, base, o, PageOf(m, d, vaddr / PAGE));
  }

  // ----- memory_copy_uvm_data -----

  /** Where `memory_copy_uvm_data` may be asked to write: user addresses whose page,
      if it has a table at all, is mapped. */
  ghost predicate Writable(m: Mem, d: nat, to: nat, size: nat)
    requires d < |m|
  {
    && to + size <= TWO32
    && forall va :: to <= va < to + size ==> TableMeansMapped(m, d, va)
  }

  ghost predicate TableMeansMapped(m: Mem, d: nat, va: int)
    requires d < |m|
  {
    && USER_BASE * PAGE <= va < TWO32
    && (Present(Pde(m, d, va / PAGE / 1024)) ==> Mapped(m, d, va / PAGE))
  }

  lemma PrefixOn(b: seq<Byte>, i: nat, n: nat)
    requires i + n <= |b|
    ensures b[..i] + b[i..][..n] == b[..i + n]
  {
  }

  /** Page by page, yet equal to one flat store; it stops at the first page without a table. */
  method MemoryCopyUvmData(ms: Memory, to: nat, d: nat, from: seq<Byte>) returns (r: int, ghost n: nat)
    requires ms.Valid() && d < |ms.mem| && ms.owner[d] == Dir && Writable(ms.mem, d, to, |from|)
    modifies ms`mem, ms`owner, ms.bitmap.bits
    ensures ms.Valid() && ms.owner == old(ms.owner) && n <= |from|
    ensures Stored(old(ms.mem), ms.mem, ms.owner, d, to, from[..n])
    ensures r == if n == |from| then 0 else -1
    ensures n < |from| ==> d < |old(ms.mem)| && !Mapped(old(ms.mem), d, (to + n) / PAGE)
    ensures forall va :: to <= va < to + n ==> Reach(old(ms.mem), d, va)
  {
    hide GetWord, Inv, BitsAgree, Pte, Pde, Stored, Splice;
    ghost var m0 := ms.mem;
    n := 0;
    var dest, rest := to, from;
    StoredNothing(m0, ms.owner, d, to);
    assert from[..0] == [];
    while |rest| > 0
      invariant ms.Valid() && ms.owner == old(ms.owner) && |ms.mem| == |m0|
      invariant 0 <= n <= |from| && dest == to + n && rest == from[n..]
      invariant Stored(m0, ms.mem, ms.owner, d, to, from[..n])
      invariant forall va :: to <= va < to + n ==> Reach(m0, d, va)
      decreases |rest|
    {
      TablesOfStored(m0, ms.mem, ms.owner, d, to, from[..n], dest);
      WritableAt(m0, d, to, |from|, dest);
      var toPaddr := MemoryGetPaddr(ms, d, dest);
      if toPaddr == 0 {
        NoPaddr(ms.bitmap.Bits(), ms.base, ms.mem, ms.owner, ms.kdir, d, dest);
        return -1, n;
      }
      PaddrTranslates(ms.bitmap.Bits(), ms.base, ms.mem, ms.owner, ms.kdir, d, dest);
      var offsetInPage := toPaddr % PAGE;
      assert offsetInPage == dest % PAGE && toPaddr / PAGE == PageOf(ms.mem, d, dest / PAGE);
      var currSize := PAGE - offsetInPage;
      if currSize > |rest| {
        currSize := |rest|;
      }
      ghost var m1 := ms.mem;
      SpliceStores(m1, ms.owner, ms.kdir, d, dest, rest[..currSize]);
      ms.mem := ms.mem[toPaddr / PAGE := Splice(ms.mem[toPaddr / PAGE], offsetInPage, rest[..currSize])];
      StoredTwice(m0, m1, ms.mem, ms.owner, d, to, from[..n], rest[..currSize]);
      SamePageReach(m0, m1, ms.owner, d, to, from[..n], dest, currSize);
      PrefixOn(from, n, currSize);
      rest := rest[currSize..];
      dest := dest + currSize;
      n := n + currSize;
    }
    return 0, n;
  }

  lemma WritableAt(m: Mem, d: nat, to: nat, size: nat, va: nat)
    requires d < |m| && Writable(m, d, to, size) && to <= va < to + size
    ensures va < TWO32 && IsUser(va / PAGE) && va / PAGE / 1024 < 1024
    ensures Present(Pde(m, d, va / PAGE / 1024)) ==> Mapped(m, d, va / PAGE)
  {
    assert TableMeansMapped(m, d, va);
  }

  lemma TablesOfStored(m: Mem, m1: Mem, o: seq<Owner>, d: nat, to: nat, b: seq<Byte>, va: nat)
    requires Stored(m, m1, o, d, to, b)
    ensures va < TWO32 && IsUser(va / PAGE) ==>
              && va / PAGE / 1024 < 1024 && va / PAGE < VPAGES
              && Pde(m1, d, va / PAGE / 1024) == Pde(m, d, va / PAGE / 1024)
              && Pte(m1, d, va / PAGE) == Pte(m, d, va / PAGE)
  {
    hide Pde, Pte, Reach, VirtByte;
  }

  lemma NoPaddr(bits: seq<bool>, base: nat, m: Mem, o: seq<Owner>, kdir: nat, d: nat, vaddr: Word)
    requires Inv(m, o, kdir) && BitsAgree(bits, base, o) && base >= 1
    requires d < |m| && o[d] == Dir && IsUser(vaddr / PAGE) && vaddr / PAGE / 1024 < 1024
    requires Present(Pde(m, d, vaddr / PAGE / 1024)) ==>
      Mapped(m, d, vaddr / PAGE) && PageOf(m, d, vaddr / PAGE) * PAGE + vaddr % PAGE == 0
    ensures !Mapped(m, d, vaddr / PAGE)
  {
    hide GetWord;
    if Mapped(m, d, vaddr / PAGE) { PaddrTranslates(bits, base, m, o, kdir, d, vaddr); }
  }

  lemma SamePageReach(m0: Mem, m1: Mem, o: seq<Owner>, d: nat, to: nat, b: seq<Byte>, va: nat, n: nat)
    requires Stored(m0, m1, o, d, to, b) && Reach(m1, d, va) && va % PAGE + n <= PAGE
    ensures forall k :: va <= k < va + n ==> Reach(m0, d, k)
  {
    hide Pde, Pte;
    forall k | va <= k < va + n ensures Reach(m0, d, k) {
      assert k / PAGE == va / PAGE && IsUser(va / PAGE);
      assert Pte(m1, d, va / PAGE) == Pte(m0, d, va / PAGE);
    }
  }
}
