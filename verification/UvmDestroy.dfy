/** Destroying a space, and what copy and destroy do to the frame bitmap together
    (memory.c:248-273). */
module UvmDestroy {
  import opened Bits
  import opened PageTable
  import opened PageSteps
  import opened Frames
  import opened Uvm

  /** Owners once the user pages of `d` below `n` and its tables below `k` are free. */
  function FreedUpTo(o: seq<Owner>, d: nat, n: nat, k: nat): (r: seq<Owner>)
    ensures |r| == |o|
  {
    seq(|o|, p requires 0 <= p < |o| =>
      match o[p]
      case User(d', vp) => if d' == d && vp < n then Free else o[p]
      case Table(d', i) => if d' == d && i < k then Free else o[p]
      case _ => o[p])
  }

  /** `freed` lists, each once, the pages that went from used to free. */
  ghost predicate FreedLog(o0: seq<Owner>, o: seq<Owner>, freed: seq<nat>) {
    && |o| == |o0|
    && (forall i, j :: 0 <= i < j < |freed| ==> freed[i] != freed[j])
    && (forall p: nat :: p in freed <==> p < |o0| && o[p] == Free && o0[p] != Free)
  }

  lemma LogOne(o0: seq<Owner>, o: seq<Owner>, freed: seq<nat>, p: nat)
    requires FreedLog(o0, o, freed) && p < |o| && o[p] != Free && o0[p] != Free
    ensures FreedLog(o0, o[p := Free], freed + [p])
  {
    assert p !in freed;
  }

  lemma FreedPage(m: Mem, o: seq<Owner>, kdir: nat, d: nat, vp: nat, k: nat)
    requires Inv(m, o, kdir) && d < |m| && o[d] == Dir && IsUser(vp)
    ensures Mapped(m, d, vp) ==>
      var p := PageOf(m, d, vp);
      && p < |m| && o[p] == User(d, vp) && FreedUpTo(o, d, vp, k)[p] == o[p]
      && FreedUpTo(o, d, vp, k)[p := Free] == FreedUpTo(o, d, vp + 1, k)
    ensures !Mapped(m, d, vp) ==> FreedUpTo(o, d, vp, k) == FreedUpTo(o, d, vp + 1, k)
  {
    hide Pte, Pde;
    forall p | 0 <= p < |m| && o[p] == User(d, vp) ensures Mapped(m, d, vp) && PageOf(m, d, vp) == p {
      assert PageLinked(m, o, d, vp, p);
    }
  }

  lemma FreedTable(m: Mem, o: seq<Owner>, kdir: nat, d: nat, i: nat, n: nat)
    requires Inv(m, o, kdir) && d < |m| && o[d] == Dir && IsUserTable(i)
    ensures Present(Pde(m, d, i)) ==>
      var t := FrameOf(Pde(m, d, i));
      && t < |m| && o[t] == Table(d, i) && FreedUpTo(o, d, n, i)[t] == o[t]
      && FreedUpTo(o, d, n, i)[t := Free] == FreedUpTo(o, d, n, i + 1)
    ensures !Present(Pde(m, d, i)) ==> FreedUpTo(o, d, n, i) == FreedUpTo(o, d, n, i + 1)
  {
    hide Pte, Pde;
    forall p | 0 <= p < |m| && o[p] == Table(d, i) ensures Present(Pde(m, d, i)) && FrameOf(Pde(m, d, i)) == p {
      assert TableLinked(m, o, d, i, p);
    }
  }

  /** Without a table none of its pages is owned. */
  lemma FreedNothing(m: Mem, o: seq<Owner>, kdir: nat, d: nat, i: nat)
    requires Inv(m, o, kdir) && d < |m| && o[d] == Dir && IsUserTable(i) && !Present(Pde(m, d, i))
    ensures FreedUpTo(o, d, 1024 * i, i) == FreedUpTo(o, d, 1024 * i + 1024, i + 1)
  {
    hide Pte, Pde;
    NoTable(m, d, i);
    FreedTable(m, o, kdir, d, i, 1024 * i);
    forall p | 0 <= p < |m| && o[p].User? && o[p].d == d ensures !(1024 * i <= o[p].vp < 1024 * i + 1024) {
      assert PageLinked(m, o, d, o[p].vp, p);
    }
  }

  lemma FreedNone(m: Mem, o: seq<Owner>, kdir: nat, d: nat)
    requires Inv(m, o, kdir)
    ensures FreedUpTo(o, d, 1024 * 512, 512) == o
  {
    hide Pte, Pde;
    forall p | 0 <= p < |m| ensures FreedUpTo(o, d, 1024 * 512, 512)[p] == o[p] {
      if o[p].Table? { assert TableLinked(m, o, o[p].d, o[p].i, p); }
      if o[p].User? { assert PageLinked(m, o, o[p].d, o[p].vp, p); }
    }
  }

  lemma FreedAll(m: Mem, o: seq<Owner>, kdir: nat, d: nat)
    requires Inv(m, o, kdir) && d < |m| && o[d] == Dir
    ensures FreedUpTo(o, d, 1024 * 1024, 1024)[d] == Dir
    ensures FreedUpTo(o, d, 1024 * 1024, 1024)[d := Free] == Released(o, d)
  {
    hide Pte, Pde;
    forall p | 0 <= p < |m| ensures FreedUpTo(o, d, 1024 * 1024, 1024)[d := Free][p] == Released(o, d)[p] {
      if o[p].Table? { assert TableLinked(m, o, o[p].d, o[p].i, p); }
      if o[p].User? { assert PageLinked(m, o, o[p].d, o[p].vp, p); }
    }
  }

  /** A page that is not the kernel's lies in the managed range. */
  lemma InRange(bits: seq<bool>, base: nat, o: seq<Owner>, p: nat)
    requires BitsAgree(bits, base, o) && p < |o| && o[p] != Reserved
    ensures base <= p < base + |bits|
  {
  }

  /** `memory_destroy_uvm`: frees every page, table and the directory of one space,
      each exactly once, and nothing else. */
  method MemoryDestroyUvm(ms: Memory, pageDir: nat) returns (ghost freed: seq<nat>)
    requires ms.Valid() && pageDir % PAGE == 0 && pageDir / PAGE < |ms.mem| && ms.owner[pageDir / PAGE] == Dir
    modifies ms.bitmap.bits, ms`owner
    ensures ms.Valid() && ms.owner == Released(old(ms.owner), pageDir / PAGE)
    ensures FreedLog(old(ms.owner), ms.owner, freed)
    ensures forall p: nat :: p in freed <==> p < |ms.mem| && BelongsTo(old(ms.owner)[p], p, pageDir / PAGE)
  {
    hide GetWord, BitsAgree, Inv, Pte, Pde, FreedUpTo, FreedLog, Released;
    ghost var o0 := ms.owner;
    var d := pageDir / PAGE;
    freed := [];
    FreedNone(ms.mem, o0, ms.kdir, d);
    LogStarts(o0);
    for i := 512 to 1024
      invariant ms.Managed() && ms.mem == old(ms.mem) && ms.owner == FreedUpTo(o0, d, 1024 * i, i)
      invariant FreedLog(o0, ms.owner, freed)
    {
      var pde := Pde(ms.mem, d, i);
      if !Present(pde) {
        FreedNothing(ms.mem, o0, ms.kdir, d, i);
        continue;
      }
      FreedTable(ms.mem, o0, ms.kdir, d, i, 1024 * i + 1024);
      freed := FreeTablePages(ms, d, i, o0, freed);
      TableStillUsed(o0, d, 1024 * i + 1024, i, FrameOf(pde));
      LogOne(o0, ms.owner, freed, FrameOf(pde));
      InRange(ms.bitmap.Bits(), ms.base, ms.owner, FrameOf(pde));
      freed := freed + [FrameOf(pde)];
      ms.AddrFreePage(FrameOf(pde) * PAGE);
    }
    FreedAll(ms.mem, o0, ms.kdir, d);
    LogOne(o0, ms.owner, freed, d);
    InRange(ms.bitmap.Bits(), ms.base, ms.owner, d);
    freed := freed + [d];
    ms.AddrFreePage(pageDir);
    ReleasedInv(ms.mem, o0, ms.kdir, d);
    LogIsOwn(o0, d, freed);
  }

  lemma LogStarts(o: seq<Owner>)
    ensures FreedLog(o, o, [])
  {
  }

  lemma LogIsOwn(o0: seq<Owner>, d: nat, freed: seq<nat>)
    requires FreedLog(o0, Released(o0, d), freed)
    ensures forall p: nat :: p in freed <==> p < |o0| && BelongsTo(o0[p], p, d)
  {
  }

  lemma TableStillUsed(o: seq<Owner>, d: nat, n: nat, i: nat, t: nat)
    requires t < |o| && o[t] == Table(d, i)
    ensures FreedUpTo(o, d, n, i)[t] == Table(d, i)
  {
  }

  /** The inner loop: the pages of one table. */
  method FreeTablePages(ms: Memory, d: nat, i: nat, ghost o0: seq<Owner>, ghost freed0: seq<nat>)
    returns (ghost freed: seq<nat>)
    requires ms.Managed() && Inv(ms.mem, o0, ms.kdir) && |o0| == |ms.mem| && d < |ms.mem| && o0[d] == Dir
    requires IsUserTable(i) && Present(Pde(ms.mem, d, i)) && FrameOf(Pde(ms.mem, d, i)) < |ms.mem|
    requires ms.owner == FreedUpTo(o0, d, 1024 * i, i) && FreedLog(o0, ms.owner, freed0)
    modifies ms.bitmap.bits, ms`owner
    ensures ms.Managed() && ms.owner == FreedUpTo(o0, d, 1024 * i + 1024, i)
    ensures FreedLog(o0, ms.owner, freed)
  {
    hide GetWord, BitsAgree, Inv, Pde, FreedUpTo, FreedLog;
    freed := freed0;
    for j := 0 to 1024
      invariant ms.Managed() && ms.mem == old(ms.mem) && ms.owner == FreedUpTo(o0, d, 1024 * i + j, i)
      invariant FreedLog(o0, ms.owner, freed)
    {
      ghost var vp := 1024 * i + j;
      assert vp / 1024 == i && vp % 1024 == j;
      FreedPage(ms.mem, o0, ms.kdir, d, vp, i);
      var pte := GetWord(ms.mem[FrameOf(Pde(ms.mem, d, i))], j);
      assert pte == Pte(ms.mem, d, vp);
      if !Present(pte) {
        continue;
      }
      LogOne(o0, ms.owner, freed, FrameOf(pte));
      InRange(ms.bitmap.Bits(), ms.base, ms.owner, FrameOf(pte));
      freed := freed + [FrameOf(pte)];
      ms.AddrFreePage(FrameOf(pte) * PAGE);
    }
  }

  // ----- conservation -----

  /** The page tables in memory say which pages of the managed range are used:
      exactly those with a set bit that are not held by the kernel itself. */
  ghost predicate RefersTo(m: Mem, d: nat, p: nat)
    requires d < |m|
  {
    || p == d
    || (exists i :: IsUserTable(i) && Present(Pde(m, d, i)) && FrameOf(Pde(m, d, i)) == p)
    || (exists vp :: IsUser(vp) && Mapped(m, d, vp) && PageOf(m, d, vp) == p)
  }

  lemma RefersIsOwned(m: Mem, o: seq<Owner>, kdir: nat, d: nat, p: nat)
    requires Inv(m, o, kdir) && d < |m| && o[d] == Dir && p < |m|
    ensures RefersTo(m, d, p) <==> BelongsTo(o[p], p, d)
  {
    hide Pde, Pte;
    if o[p].Table? { assert TableLinked(m, o, o[p].d, o[p].i, p); }
    if o[p].User? { assert PageLinked(m, o, o[p].d, o[p].vp, p); }
  }

  /** The set bits are exactly the disjoint union of the live spaces' directories,
      tables and pages and of the pages the kernel holds. */
  lemma BitsAreUnion(bits: seq<bool>, base: nat, m: Mem, o: seq<Owner>, kdir: nat, p: nat)
    requires BitsAgree(bits, base, o) && Inv(m, o, kdir) && base <= p < base + |bits|
    ensures bits[p - base] <==>
      o[p] == Single || o[p] == Reserved || exists d :: 0 <= d < |m| && o[d] == Dir && RefersTo(m, d, p)
    ensures (exists d :: 0 <= d < |m| && o[d] == Dir && RefersTo(m, d, p)) ==> o[p] != Single && o[p] != Reserved
    ensures forall d, d' | 0 <= d < |m| && 0 <= d' < |m| && o[d] == Dir && o[d'] == Dir ::
      RefersTo(m, d, p) && RefersTo(m, d', p) ==> d == d'
  {
    hide Pde, Pte, RefersTo;
    forall d | 0 <= d < |m| && o[d] == Dir ensures RefersTo(m, d, p) <==> BelongsTo(o[p], p, d) {
      RefersIsOwned(m, o, kdir, d, p);
    }
    var owner := if o[p].Table? || o[p].User? then o[p].d else p;
    if o[p].Table? { assert TableLinked(m, o, o[p].d, o[p].i, p); }
    if o[p].User? { assert PageLinked(m, o, o[p].d, o[p].vp, p); }
    if o[p] != Free && o[p] != Single && o[p] != Reserved {
      assert 0 <= owner < |m| && o[owner] == Dir && RefersTo(m, owner, p);
    }
  }

  /** Destroying a copy gives back exactly what the copy took. */
  lemma ReleaseUndoesCopy(m0: Mem, o0: seq<Owner>, m: Mem, o: seq<Owner>, kdir: nat, src: nat, d: nat)
    requires Inv(m0, o0, kdir) && CopyOf(m0, o0, m, o, kdir, src, d)
    ensures Released(o, d) == o0
  {
    hide Pde, Pte, SameEntry;
    forall x | 0 <= x < |m| ensures Released(o, d)[x] == o0[x] {
      if o0[x].Table? { assert TableLinked(m0, o0, o0[x].d, o0[x].i, x); }
      if o0[x].User? { assert PageLinked(m0, o0, o0[x].d, o0[x].vp, x); }
    }
  }

  lemma BitsDetermined(b: seq<bool>, b': seq<bool>, base: nat, o: seq<Owner>)
    requires BitsAgree(b, base, o) && BitsAgree(b', base, o) && |b| == |b'|
    ensures b == b'
  {
    forall k | 0 <= k < |b| ensures b[k] == b'[k] {
      var p := base + k;
      assert (b[p - base] <==> o[p] != Free) && (b'[p - base] <==> o[p] != Free);
    }
  }

  /** Fork's copy followed by its destruction leaves bitmap and owners as they were. */
  method CopyThenDestroy(ms: Memory, pageDir: nat)
    requires ms.Valid() && pageDir % PAGE == 0 && pageDir / PAGE < |ms.mem| && ms.owner[pageDir / PAGE] == Dir
    requires |Roles(ms.mem, pageDir / PAGE)| <= |FreeSet(ms.owner)|
    modifies ms`mem, ms`owner, ms.bitmap.bits
    ensures ms.Valid() && ms.owner == old(ms.owner) && ms.bitmap.Bits() == old(ms.bitmap.Bits())
    ensures forall x :: 0 <= x < |ms.mem| && ms.owner[x] != Free ==> ms.mem[x] == old(ms.mem)[x]
  {
    hide GetWord, BitsAgree, Inv, Pte, Pde, Released, FreedLog, SameEntry, FreeSet, Roles;
    ghost var m0, o0 := ms.mem, ms.owner;
    var to := MemoryCopyUvm(ms, pageDir);
    ReleaseUndoesCopy(m0, o0, ms.mem, ms.owner, ms.kdir, pageDir / PAGE, to / PAGE);
    ghost var freed := MemoryDestroyUvm(ms, to);
    BitsDetermined(old(ms.bitmap.Bits()), ms.bitmap.Bits(), ms.base, o0);
  }
}
