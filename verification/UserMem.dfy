/** Growing a space and storing into it from the kernel (memory.c:193-223, 328-402). */
module UserMem {
  import opened Bits
  import opened PageTable
  import opened PageSteps
  import opened Frames
  import opened Uvm
  import opened UvmDestroy

  // ----- memory_alloc_for_page_dir -----

  /** The parts a run of `n` pages from `vp` needs. */
  ghost function RunRoles(vp: nat, n: nat): set<Role> {
    if n == 0 then {} else RunRoles(vp, n - 1) + {UserPage(vp + n - 1), TablePage((vp + n - 1) / 1024)}
  }

  lemma {:induction false} RunRolesHold(vp: nat, n: nat, k: nat)
    requires k < n
    ensures UserPage(vp + k) in RunRoles(vp, n) && TablePage((vp + k) / 1024) in RunRoles(vp, n)
  {
    if k < n - 1 { RunRolesHold(vp, n - 1, k); }
  }

  /** Pages `vp` .. `vp + n - 1` of `d` were mapped to pages that had been free; every
      other translation, in this and all other spaces, is as it was. */
  ghost predicate Extended(m: Mem, o: seq<Owner>, m': Mem, o': seq<Owner>, d: nat, vp: nat, n: nat, perm: nat) {
    && |m| == |o| == |m'| == |o'| && d < |m|
    && (forall x :: IsUser(x) && vp <= x < vp + n ==>
          var q := PageOf(m', d, x);
          Mapped(m', d, x) && q < |m| && o[q] == Free && Pte(m', d, x) == MakeEntry(q, perm))
    && (forall d', x :: 0 <= d' < |m| && o[d'] == Dir && IsUser(x) && !(d' == d && vp <= x < vp + n) ==>
        Pte(m', d', x) == Pte(m, d', x))
    && (forall x :: 0 <= x < |m| && o[x] != Free ==> o'[x] == o[x])
    && (forall x :: 0 <= x < |m| && o[x] != Free && x != d && !(o[x].Table? && o[x].d == d) ==> m'[x] == m[x])
  }

  lemma ExtendedRefl(m: Mem, o: seq<Owner>, d: nat, vp: nat, perm: nat)
    requires |m| == |o| && d < |m|
    ensures Extended(m, o, m, o, d, vp, 0, perm)
  {
  }

  lemma ExtendedOne(m: Mem, o: seq<Owner>, kdir: nat, m1: Mem, o1: seq<Owner>, m2: Mem, o2: seq<Owner>, d: nat,
                    vp: nat, n: nat, perm: nat, p: nat)
    requires Inv(m, o, kdir) && d < |m| && o[d] == Dir
    requires Extended(m, o, m1, o1, d, vp, n, perm)
    requires perm < PAGE && p < VPAGES && MakeEntry(p, perm) < TWO32
    requires FrameOf(MakeEntry(p, perm)) == p && Present(MakeEntry(p, perm))
    requires FreshMapped(m1, o1, m2, o2, d, vp + n, p, MakeEntry(p, perm))
    ensures Extended(m, o, m2, o2, d, vp, n + 1, perm)
  {
    hide Pde, Pte, MakeEntry, GetWord;
    forall x | IsUser(x) && vp <= x < vp + n + 1
      ensures var q := PageOf(m2, d, x);
        Mapped(m2, d, x) && q < |m| && o[q] == Free && Pte(m2, d, x) == MakeEntry(q, perm)
    {
      assert o1[d] == Dir;
      assert Pte(m2, d, x) == if x == vp + n then MakeEntry(p, perm) else Pte(m1, d, x);
      if x < vp + n { assert Mapped(m1, d, x); }
    }
    forall x | 0 <= x < |m| && o[x].Table? && o[x].d == d ensures o1[x].Table? && o1[x].d == d {}
    forall d', x | 0 <= d' < |m| && o[d'] == Dir && IsUser(x) && !(d' == d && vp <= x < vp + n + 1)
      ensures Pte(m2, d', x) == Pte(m, d', x)
    {
      assert o1[d'] == Dir;
      assert Pte(m2, d', x) == Pte(m1, d', x);
    }
  }

  method MemoryAllocForPageDir(ms: Memory, d: nat, vaddr: Word, size: nat, perm: nat) returns (err: int)
    requires ms.Valid() && d < |ms.mem| && ms.owner[d] == Dir && perm < PAGE
    requires size + PAGE <= TWO32
    requires var vp, n := vaddr / PAGE, (size + PAGE - 1) / PAGE;
      && IsUser(vp) && vp + n <= VPAGES
      && (forall x :: vp <= x < vp + n ==> !Mapped(ms.mem, d, x))
      && Enough(ms.mem, ms.owner, d, RunRoles(vp, n))
    modifies ms`mem, ms`owner, ms.bitmap.bits
    ensures ms.Valid() && err == 0 && |ms.mem| == |old(ms.mem)|
    ensures Extended(old(ms.mem), old(ms.owner), ms.mem, ms.owner, d, vaddr / PAGE, (size + PAGE - 1) / PAGE, perm)
  {
    hide GetWord, BitsAgree, FreeSet, Inv, Pde, Pte, Roles, Enough, MakeEntry, Extended, Up2, PageMapped, RunRoles;
    ghost var m0, o0, vp := ms.mem, ms.owner, vaddr / PAGE;
    PageUp2(size);
    var currVaddr := vaddr;
    var pageCount := Up2(size, PAGE) / PAGE;
    ghost var goal := RunRoles(vp, pageCount);
    ExtendedRefl(m0, o0, d, vp, perm);
    for i := 0 to pageCount
      invariant ms.Valid() && d < |ms.mem| == |m0| && ms.owner[d] == Dir
      invariant currVaddr == vaddr + i * PAGE
      invariant Extended(m0, o0, ms.mem, ms.owner, d, vp, i, perm)
      invariant Enough(ms.mem, ms.owner, d, goal)
    {
      ghost var m1, o1 := ms.mem, ms.owner;
      RunRolesHold(vp, pageCount, i);
      StillUnmapped(m0, o0, m1, o1, d, vp, i, perm);
      assert currVaddr / PAGE == vp + i;
      var paddr := MapFresh(ms, d, currVaddr, perm, goal);
      ExtendedOne(m0, o0, ms.kdir, m1, o1, ms.mem, ms.owner, d, vp, i, perm, paddr / PAGE);
      currVaddr := currVaddr + PAGE;
    }
    return 0;
  }

  lemma StillUnmapped(m: Mem, o: seq<Owner>, m1: Mem, o1: seq<Owner>, d: nat, vp: nat, i: nat, perm: nat)
    requires Extended(m, o, m1, o1, d, vp, i, perm) && o[d] == Dir && IsUser(vp + i) && !Mapped(m, d, vp + i)
    ensures !Mapped(m1, d, vp + i)
  {
  }

  lemma PageUp2(size: nat)
    requires size + PAGE <= TWO32
    ensures Up2(size, PAGE) / PAGE == (size + PAGE - 1) / PAGE
    ensures Up2(size, PAGE) == (size + PAGE - 1) / PAGE * PAGE
  {
    hide Up2, Pow2;
    Pow2Values();
    Up2Rounds(size, 12);
  }

  // ----- sys_sbrk -----

  class Task {
    const dir: nat
    const heapStart: nat
    var heapEnd: nat

    constructor (dir: nat, heapStart: nat)
      ensures this.dir == dir && this.heapStart == heapStart && heapEnd == heapStart
    {
      this.dir, this.heapStart, heapEnd := dir, heapStart, heapStart;
    }
  }

  /** First page not touched by addresses below `a`. */
  function PageEnd(a: nat): nat { (a + PAGE - 1) / PAGE }

  /** Growing the heap from `end` to `end'` adds just the pages of its new bytes, other than the
      page of its last old byte. */
  lemma PagesOfNewBytes(end: nat, end': nat, vp: nat)
    requires 0 < end <= end'
    ensures PageEnd(end) <= vp < PageEnd(end') <==>
      vp != (end - 1) / PAGE && exists a: nat :: end <= a < end' && a / PAGE == vp
  {
    assert PageEnd(end) == (end - 1) / PAGE + 1;
    if PageEnd(end) <= vp < PageEnd(end') {
      var a := vp * PAGE;
      assert a / PAGE == vp && end <= a < end';
    }
  }

  /** Every page touching the heap is mapped (the page of an unaligned heap start
      belongs to the loaded program). */
  ghost predicate HeapMapped(m: Mem, d: nat, start: nat, end: nat) {
    && d < |m| && USER_BASE * PAGE <= start <= end && PageEnd(end) <= VPAGES
    && forall vp :: start / PAGE <= vp < PageEnd(end) ==> Mapped(m, d, vp)
  }

  /** What one successful call promises, on the space's page set. */
  datatype Brk = Brk(incr: nat, r: nat)

  ghost function PageRange(a: nat, b: nat): (r: set<nat>)
    ensures forall vp :: vp in r <==> a <= vp < b
    decreases b
  {
    if b <= a then {} else PageRange(a, b - 1) + {b - 1}
  }

  /** `Extended` by whole pages, as a statement about the set of mapped user pages. */
  lemma ExtendedPages(m: Mem, o: seq<Owner>, m': Mem, o': seq<Owner>, d: nat, vp: nat, n: nat, perm: nat)
    requires Extended(m, o, m', o', d, vp, n, perm) && o[d] == Dir && USER_BASE <= vp && vp + n <= VPAGES
    requires forall x :: vp <= x < vp + n ==> !Mapped(m, d, x)
    ensures Pages(m', d) == Pages(m, d) + PageRange(vp, vp + n)
    ensures Pages(m, d) !! PageRange(vp, vp + n)
    ensures forall x :: x in Pages(m, d) ==> Pte(m', d, x) == Pte(m, d, x)
  {
    hide Pte, Pde, MakeEntry;
    forall x | IsUser(x) ensures Mapped(m', d, x) <==> Mapped(m, d, x) || vp <= x < vp + n {
      if !(vp <= x < vp + n) { assert Pte(m', d, x) == Pte(m, d, x); }
    }
  }

  /** A run of calls: break, mapped pages and memory before and after each. */
  datatype BrkState = BrkState(end: nat, m: Mem)

  ghost predicate BrkStep(d: nat, s: BrkState, b: Brk, s': BrkState) {
    && d < |s.m| && d < |s'.m|
    && b.r == s.end && s'.end == s.end + b.incr
    && Pages(s'.m, d) == Pages(s.m, d) + PageRange(PageEnd(s.end), PageEnd(s'.end))
    && Pages(s.m, d) !! PageRange(PageEnd(s.end), PageEnd(s'.end))
    && forall x :: x in Pages(s.m, d) ==> x < VPAGES && Pte(s'.m, d, x) == Pte(s.m, d, x)
  }

  method SysSbrk(ms: Memory, task: Task, incr: nat) returns (r: nat)
    requires ms.Valid() && task.dir < |ms.mem| && ms.owner[task.dir] == Dir
    requires HeapMapped(ms.mem, task.dir, task.heapStart, task.heapEnd)
    requires incr < 0x8000_0000 && task.heapEnd + incr + PAGE <= TWO32
    requires forall vp :: PageEnd(task.heapEnd) <= vp < PageEnd(task.heapEnd + incr) ==> !Mapped(ms.mem, task.dir, vp)
    requires Enough(ms.mem, ms.owner, task.dir,
               RunRoles(PageEnd(task.heapEnd), PageEnd(task.heapEnd + incr) - PageEnd(task.heapEnd)))
    modifies ms`mem, ms`owner, ms.bitmap.bits, task`heapEnd
    ensures ms.Valid()
    ensures r == old(task.heapEnd) && task.heapEnd == old(task.heapEnd) + incr
    ensures HeapMapped(ms.mem, task.dir, task.heapStart, task.heapEnd)
    ensures Extended(old(ms.mem), old(ms.owner), ms.mem, ms.owner, task.dir,
              PageEnd(old(task.heapEnd)), PageEnd(task.heapEnd) - PageEnd(old(task.heapEnd)), 7)
    ensures BrkStep(task.dir, BrkState(old(task.heapEnd), old(ms.mem)), Brk(incr, r), BrkState(task.heapEnd, ms.mem))
  {
    hide GetWord, BitsAgree, FreeSet, Inv, Pde, Pte, Roles, Enough, Extended, RunRoles, BrkStep, HeapMapped, PageRange;
    HeapBelow(ms.mem, task.dir, task.heapStart, task.heapEnd);
    var preHeapEnd := task.heapEnd;
    ghost var m0, o0, d := ms.mem, ms.owner, task.dir;
    ExtendedRefl(m0, o0, d, PageEnd(preHeapEnd), 7);
    if incr == 0 {
      SameBreak(m0, o0, d, preHeapEnd, 0);
      return preHeapEnd;
    }
    var start := task.heapEnd;
    var end := start + incr;
    var left := incr;
    var startOffset := start % PAGE;
    if startOffset != 0 {
      if startOffset + incr <= PAGE {
        task.heapEnd := end;
        assert PageEnd(end) == PageEnd(preHeapEnd);
        SameBreak(m0, o0, d, preHeapEnd, incr);
        SameHeap(m0, d, task.heapStart, preHeapEnd, end);
        return preHeapEnd;
      } else {
        var currSize := PAGE - startOffset;
        start := start + currSize;
        left := left - currSize;
      }
    }
    assert start / PAGE == PageEnd(preHeapEnd) && start % PAGE == 0;
    assert (end - start + PAGE - 1) / PAGE == PageEnd(end) - PageEnd(preHeapEnd);
    if left != 0 {
      var err := MemoryAllocForPageDir(ms, task.dir, start, end - start, 7);
      if err < 0 {
        return NO_PAGE;
      }
      HeapStillMapped(m0, o0, ms.mem, ms.owner, d, task.heapStart, preHeapEnd, end);
      ExtendedBreak(m0, o0, ms.mem, ms.owner, d, preHeapEnd, incr);
    }
    task.heapEnd := end;
    return preHeapEnd;
  }

  lemma HeapBelow(m: Mem, d: nat, start: nat, end: nat)
    requires HeapMapped(m, d, start, end)
    ensures USER_BASE <= PageEnd(end) && USER_BASE * PAGE <= end
  {
  }

  lemma SameHeap(m: Mem, d: nat, start: nat, end: nat, end': nat)
    requires HeapMapped(m, d, start, end) && end <= end' && PageEnd(end') == PageEnd(end)
    ensures HeapMapped(m, d, start, end')
  {
    hide Mapped;
  }

  lemma SameBreak(m: Mem, o: seq<Owner>, d: nat, end: nat, incr: nat)
    requires d < |m| && PageEnd(end + incr) == PageEnd(end)
    ensures BrkStep(d, BrkState(end, m), Brk(incr, end), BrkState(end + incr, m))
  {
    hide Mapped, Pte;
  }

  lemma ExtendedBreak(m: Mem, o: seq<Owner>, m': Mem, o': seq<Owner>, d: nat, end: nat, incr: nat)
    requires d < |m| == |m'| == |o| && o[d] == Dir && USER_BASE <= PageEnd(end) <= PageEnd(end + incr) <= VPAGES
    requires Extended(m, o, m', o', d, PageEnd(end), PageEnd(end + incr) - PageEnd(end), 7)
    requires forall x :: PageEnd(end) <= x < PageEnd(end + incr) ==> !Mapped(m, d, x)
    ensures BrkStep(d, BrkState(end, m), Brk(incr, end), BrkState(end + incr, m'))
  {
    hide Mapped, Pte, Pages, Extended;
    ExtendedPages(m, o, m', o', d, PageEnd(end), PageEnd(end + incr) - PageEnd(end), 7);
    PagesBelow(m, d);
  }

  lemma PagesBelow(m: Mem, d: nat)
    requires d < |m|
    ensures forall x :: x in Pages(m, d) ==> x < VPAGES
  {
  }

  lemma HeapStillMapped(m: Mem, o: seq<Owner>, m': Mem, o': seq<Owner>, d: nat, start: nat, end: nat, end': nat)
    requires HeapMapped(m, d, start, end) && end <= end' && PageEnd(end') <= VPAGES && d < |o| && o[d] == Dir
    requires PageEnd(end) <= PageEnd(end')
    requires Extended(m, o, m', o', d, PageEnd(end), PageEnd(end') - PageEnd(end), 7)
    ensures HeapMapped(m', d, start, end')
  {
    hide Pde, Pte, MakeEntry;
    forall vp | start / PAGE <= vp < PageEnd(end') ensures Mapped(m', d, vp) {
      assert IsUser(vp);
      if vp < PageEnd(end) {
        assert Mapped(m, d, vp);
        assert Pte(m', d, vp) == Pte(m, d, vp);
      }
    }
  }

  // ----- runs of sbrk -----

  ghost predicate BrkRun(d: nat, ss: seq<BrkState>, bs: seq<Brk>) {
    |ss| == |bs| + 1 && forall i :: 0 <= i < |bs| ==> BrkStep(d, ss[i], bs[i], ss[i + 1])
  }

  function TotalIncr(bs: seq<Brk>): nat {
    if bs == [] then 0 else TotalIncr(bs[..|bs| - 1]) + bs[|bs| - 1].incr
  }

  /** From `s` to `s'` exactly the pages up to the new end were added, each once, and no
      earlier translation changed. */
  ghost predicate BrkSpan(d: nat, s: BrkState, s': BrkState) {
    && d < |s.m| && d < |s'.m| && s.end <= s'.end
    && Pages(s'.m, d) == Pages(s.m, d) + PageRange(PageEnd(s.end), PageEnd(s'.end))
    && forall x :: x in Pages(s.m, d) ==> x < VPAGES && Pte(s'.m, d, x) == Pte(s.m, d, x)
  }

  lemma SpanStep(d: nat, s0: BrkState, s: BrkState, b: Brk, s': BrkState)
    requires BrkSpan(d, s0, s) && BrkStep(d, s, b, s')
    ensures BrkSpan(d, s0, s')
  {
    hide Pages, Pte;
    var a, b, c := PageEnd(s0.end), PageEnd(s.end), PageEnd(s'.end);
    assert a <= b <= c;
    assert PageRange(a, c) == PageRange(a, b) + PageRange(b, c);
  }

  /** After any sequence of calls the heap ends where the increments add up to, each call
      answered the previous end, and the mapped pages are the first ones plus those up to
      the end, so none at or beyond the rounded-up end was added. */
  lemma {:induction false} SbrkRuns(d: nat, ss: seq<BrkState>, bs: seq<Brk>)
    requires BrkRun(d, ss, bs) && d < |ss[0].m|
    ensures ss[|bs|].end == ss[0].end + TotalIncr(bs)
    ensures forall x :: x in Pages(ss[0].m, d) ==> x < VPAGES
    ensures BrkSpan(d, ss[0], ss[|bs|])
    ensures forall i :: 0 <= i < |bs| ==> bs[i].r == ss[0].end + TotalIncr(bs[..i])
    decreases |bs|
  {
    hide Pages, Pte, BrkStep;
    PagesBelow(ss[0].m, d);
    if bs == [] {
      assert BrkSpan(d, ss[0], ss[0]);
    } else {
      var n := |bs| - 1;
      var ss', bs' := ss[..n + 1], bs[..n];
      assert BrkRun(d, ss', bs') by {
        forall i | 0 <= i < n ensures BrkStep(d, ss'[i], bs'[i], ss'[i + 1]) {}
      }
      SbrkRuns(d, ss', bs');
      StepEnds(d, ss[n], bs[n], ss[n + 1]);
      SpanStep(d, ss[0], ss[n], bs[n], ss[n + 1]);
      forall i | 0 <= i < n ensures bs[i].r == ss[0].end + TotalIncr(bs[..i]) {
        assert bs[..i] == bs'[..i] && bs'[i] == bs[i];
      }
    }
  }

  lemma StepEnds(d: nat, s: BrkState, b: Brk, s': BrkState)
    requires BrkStep(d, s, b, s')
    ensures b.r == s.end && s'.end == s.end + b.incr
  {
  }
}
