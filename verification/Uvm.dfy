/** Address spaces: finding and creating entries, creating, copying and destroying
    a space (memory.c:68-120, 153-168, 248-319). */
module Uvm {
  import opened Bits
  import opened PageTable
  import opened PageSteps
  import opened Frames

  // ----- what a space consists of -----

  /** The parts of a space that each take one frame. */
  datatype Role = DirPage | TablePage(i: nat) | UserPage(vp: nat)

  ghost function Tables(m: Mem, d: nat): set<nat>
    requires d < |m|
  {
    set i: nat | 512 <= i < 1024 && Present(Pde(m, d, i))
  }

  ghost function Pages(m: Mem, d: nat): set<nat>
    requires d < |m|
  {
    set vp: nat | USER_BASE <= vp < VPAGES && Mapped(m, d, vp)
  }

  ghost function Roles(m: Mem, d: nat): set<Role>
    requires d < |m|
  {
    {DirPage} + (set i | i in Tables(m, d) :: TablePage(i)) + (set vp | vp in Pages(m, d) :: UserPage(vp))
  }

  /** The frames at hand suffice to complete space `d` to one with the roles `goal`. */
  ghost predicate Enough(m: Mem, o: seq<Owner>, d: nat, goal: set<Role>)
    requires d < |m|
  {
    |goal - Roles(m, d)| <= |FreeSet(o)|
  }

  // ----- find_pte -----

  /** Fills an empty directory slot with a fresh zeroed table. */
  method AddTable(ms: Memory, d: nat, i: nat) returns (t: nat)
    requires ms.Valid() && d < |ms.mem| && ms.owner[d] == Dir && IsUserTable(i) && !Present(Pde(ms.mem, d, i))
    requires FreeSet(ms.owner) != {}
    modifies ms`mem, ms`owner, ms.bitmap.bits
    ensures ms.Valid() && t < |ms.mem| == |old(ms.mem)|
    ensures old(ms.owner)[t] == Free && ms.owner == old(ms.owner)[t := Table(d, i)]
    ensures t * PAGE + 7 < TWO32 && SlotFilled(old(ms.mem), ms.mem, old(ms.owner), d, i, t * PAGE + 7)
    ensures forall x :: 0 <= x < |ms.mem| && x != d && x != t ==> ms.mem[x] == old(ms.mem)[x]
    ensures |FreeSet(ms.owner)| == |FreeSet(old(ms.owner))| - 1
  {
    hide GetWord, SetWord, BitsAgree, FreeSet, Inv, SlotFilled, Pte, Pde;
    var paddr := ms.AddrAllocPage();
    t := paddr / PAGE;
    TableAdded(old(ms.mem), old(ms.owner), ms.kdir, d, i, t);
    ghost var o1 := ms.owner;
    ms.mem := ms.mem[t := ZERO_PAGE];
    ms.mem := ms.mem[d := SetWord(ms.mem[d], i, PdeValue(t))];
    ms.owner := ms.owner[t := Table(d, i)];
    FreeSetSame(o1, t, Table(d, i));
    assert ms.owner == old(ms.owner)[t := Table(d, i)];
    RetagAgrees(ms.bitmap.Bits(), ms.base, o1, t, Table(d, i));
  }

  /** Taking a free page, zeroing it and hooking it in, seen as one change. */
  lemma TableAdded(m: Mem, o: seq<Owner>, kdir: nat, d: nat, i: nat, t: nat)
    requires Inv(m, o, kdir) && d < |m| && o[d] == Dir && IsUserTable(i) && !Present(Pde(m, d, i))
    requires |o| == |m| && t < |m| < VPAGES && o[t] == Free
    ensures d != t && PdeValue(t) == t * PAGE + 7 < TWO32
    ensures var m2 := m[t := ZERO_PAGE][d := SetWord(m[d], i, PdeValue(t))];
      Inv(m2, o[t := Table(d, i)], kdir) && SlotFilled(m, m2, o, d, i, t * PAGE + 7)
  {
    hide GetWord, SetWord, Pte, Pde, Inv, SlotFilled, PdeValue, Present, FrameOf;
    DirIsKept(m, o, kdir, d, t);
    PdeValueFields(t);
    FreshPage(m, o, kdir, t, ZERO_PAGE);
    var m1, o1 := m[t := ZERO_PAGE], o[t := Single];
    LinkTable(m1, o1, kdir, d, i, t, PdeValue(t));
    assert o1[t := Table(d, i)] == o[t := Table(d, i)];
    SlotFilledFrom(m, m1, m1[d := SetWord(m[d], i, PdeValue(t))], o, o1, d, i, PdeValue(t));
  }

  /** Taking a free page and filling it touches no live table. */
  lemma FreshPage(m: Mem, o: seq<Owner>, kdir: nat, t: nat, x: Page)
    requires Inv(m, o, kdir) && t < |m| == |o| && o[t] == Free
    ensures Inv(m[t := x], o[t := Single], kdir)
    ensures SameTables(m, m[t := x], o)
  {
    hide GetWord, Inv, Pte, Pde;
    Retag(m, o, kdir, t, Single);
    DataWrite(m, o[t := Single], kdir, t, x);
    assert forall d :: 0 <= d < |m| && o[d] == Dir ==> o[t := Single][d] == Dir;
  }

  lemma DirIsKept(m: Mem, o: seq<Owner>, kdir: nat, d: nat, t: nat)
    requires Inv(m, o, kdir) && d < |m| && o[d] == Dir && t < |m| && o[t] == Free
    ensures d != t && kdir != t
  {
  }

  lemma RetagAgrees(bits: seq<bool>, base: nat, o: seq<Owner>, p: nat, x: Owner)
    requires BitsAgree(bits, base, o) && p < |o| && o[p] != Free && o[p] != Reserved && x != Free
    ensures BitsAgree(bits, base, o[p := x])
  {
  }

  /** A look-up that adds no table. */
  lemma NothingFilled(m: Mem, o: seq<Owner>, kdir: nat, d: nat, i: nat)
    requires Inv(m, o, kdir) && d < |m| && o[d] == Dir && IsUserTable(i)
    ensures |o| == |m| <= VPAGES && SlotFilled(m, m, o, d, i, Pde(m, d, i))
    ensures Present(Pde(m, d, i)) ==> FrameOf(Pde(m, d, i)) < |m|
  {
    hide GetWord, Pte;
  }

  /** `find_pte`: the frame and index of the entry, or not found. */
  method FindPte(ms: Memory, d: nat, vaddr: Word, alloc: bool) returns (found: bool, t: nat, j: nat)
    requires ms.Valid() && d < |ms.mem| && ms.owner[d] == Dir && IsUser(vaddr / PAGE)
    requires alloc && !Present(Pde(ms.mem, d, vaddr / PAGE / 1024)) ==> FreeSet(ms.owner) != {}
    modifies ms`mem, ms`owner, ms.bitmap.bits
    ensures ms.Valid() && |ms.mem| == |old(ms.mem)|
    ensures found == (alloc || Present(Pde(ms.mem, d, vaddr / PAGE / 1024)))
    ensures found ==>
      && Present(Pde(ms.mem, d, vaddr / PAGE / 1024))
      && t == FrameOf(Pde(ms.mem, d, vaddr / PAGE / 1024)) < |ms.mem|
    ensures j == vaddr / PAGE % 1024
    ensures !alloc || Present(Pde(old(ms.mem), d, vaddr / PAGE / 1024)) ==>
        ms.mem == old(ms.mem) && ms.owner == old(ms.owner)
    ensures SlotFilled(old(ms.mem), ms.mem, old(ms.owner), d, vaddr / PAGE / 1024, Pde(ms.mem, d, vaddr / PAGE / 1024))
    ensures forall x :: 0 <= x < |ms.mem| && old(ms.owner)[x] != Free ==> ms.owner[x] == old(ms.owner)[x]
    ensures forall x :: 0 <= x < |ms.mem| && old(ms.owner)[x] == Free && ms.owner[x] != Free ==>
        ms.owner[x] == Table(d, vaddr / PAGE / 1024)
    ensures forall x :: 0 <= x < |ms.mem| && old(ms.owner)[x] != Free && x != d ==> ms.mem[x] == old(ms.mem)[x]
    ensures alloc && !Present(Pde(old(ms.mem), d, vaddr / PAGE / 1024)) ==>
        |FreeSet(ms.owner)| == |FreeSet(old(ms.owner))| - 1
  {
    hide GetWord, SetWord, BitsAgree, FreeSet, Pte, Pde, And, Inv, SlotFilled, Present, FrameOf, PdeIndex, PteIndex;
    IndexSplit(vaddr);
    NothingFilled(ms.mem, ms.owner, ms.kdir, d, vaddr / PAGE / 1024);
    var i := PdeIndex(vaddr);
    j := PteIndex(vaddr);
    assert IsUserTable(i);
    var pde := Pde(ms.mem, d, i);
    t := 0;
    if Present(pde) {
      t := FrameOf(pde);
      found := true;
    } else if !alloc {
      found := false;
    } else {
      t := AddTable(ms, d, i);
      TableHolds(old(ms.mem), ms.mem, old(ms.owner), d, i, t);
      found := true;
    }
  }

  lemma TableHolds(m: Mem, m': Mem, o: seq<Owner>, d: nat, i: nat, t: nat)
    requires |o| == |m| == |m'| && t * PAGE + 7 < TWO32 && SlotFilled(m, m', o, d, i, t * PAGE + 7)
    ensures d < |m'| && i < 1024 && Pde(m', d, i) == t * PAGE + 7
    ensures Present(Pde(m', d, i)) && FrameOf(Pde(m', d, i)) == t
  {
    hide Pde, Pte;
    ModUnique(t * PAGE + 7, PAGE, t, 7);
    ModUnique(t * PAGE + 7, 2, 2048 * t + 3, 1);
  }

  // ----- memory_create_map, one page -----

  /** User page `vp` of `d` now refers, by entry `w`, to page `p`; no other mapping,
      no other space and no other page in use changed. */
  ghost predicate PageMapped(m: Mem, o: seq<Owner>, m': Mem, o': seq<Owner>, d: nat, vp: nat, p: nat, w: Word) {
    && |m| == |o| == |m'| == |o'| && p < |m| && d < |m| && IsUser(vp)
    && o'[p] == User(d, vp) && m'[p] == m[p]
    && Present(Pde(m', d, vp / 1024))
    && (forall d', i' :: 0 <= d' < |m| && o[d'] == Dir && 0 <= i' < 1024 && !(d' == d && i' == vp / 1024) ==>
        Pde(m', d', i') == Pde(m, d', i'))
    && (forall d', vp' :: 0 <= d' < |m| && o[d'] == Dir && IsUser(vp') ==>
          Pte(m', d', vp') == if d' == d && vp' == vp then w else Pte(m, d', vp'))
    && (forall x :: 0 <= x < |m| && x != p && o[x] != Free ==> o'[x] == o[x])
    && (forall x :: 0 <= x < |m| && o[x] == Free && o'[x] != Free ==> o'[x] == Table(d, vp / 1024))
    && (forall x :: 0 <= x < |m| && x != d && o[x] != Free && !(o[x].Table? && o[x].d == d) ==> m'[x] == m[x])
  }

  lemma MappedFrom(m: Mem, o: seq<Owner>, m1: Mem, o1: seq<Owner>, d: nat, vp: nat, p: nat, w: Word, t: nat, x: Page)
    requires |m| == |o| == |m1| == |o1| && d < |m| && o[d] == Dir && IsUser(vp) && p < |m| && o[p] == Single
    requires SlotFilled(m, m1, o, d, vp / 1024, Pde(m1, d, vp / 1024)) && Present(Pde(m1, d, vp / 1024))
    requires forall y :: 0 <= y < |m| && o[y] != Free ==> o1[y] == o[y]
    requires forall y :: 0 <= y < |m| && o[y] == Free && o1[y] != Free ==> o1[y] == Table(d, vp / 1024)
    requires forall y :: 0 <= y < |m| && o[y] != Free && y != d ==> m1[y] == m[y]
    requires t < |m| && o1[t] == Table(d, vp / 1024)
    requires EntryFilled(m1, m1[t := x], o1, d, vp, w)
    ensures PageMapped(m, o, m1[t := x], o1[p := User(d, vp)], d, vp, p, w)
  {
    hide Pte, Pde;
    assert forall y :: 0 <= y < |m| && o[y] == Dir ==> o1[y] == Dir;
    assert p != t && d != t;
  }

  method MemoryCreateMap(ms: Memory, d: nat, vaddr: Word, paddr: nat, perm: nat)
    requires ms.Valid() && d < |ms.mem| && ms.owner[d] == Dir && IsUser(vaddr / PAGE)
    requires !Mapped(ms.mem, d, vaddr / PAGE) && perm < PAGE
    requires paddr % PAGE == 0 && paddr / PAGE < |ms.mem| && ms.owner[paddr / PAGE] == Single
    requires !Present(Pde(ms.mem, d, vaddr / PAGE / 1024)) ==> FreeSet(ms.owner) != {}
    modifies ms`mem, ms`owner, ms.bitmap.bits
    ensures ms.Valid()
    ensures MakeEntry(paddr / PAGE, perm) < TWO32 && Present(MakeEntry(paddr / PAGE, perm))
    ensures PageMapped(old(ms.mem), old(ms.owner), ms.mem, ms.owner, d, vaddr / PAGE, paddr / PAGE,
        MakeEntry(paddr / PAGE, perm))
    ensures |FreeSet(ms.owner)|
         == |FreeSet(old(ms.owner))| - (if Present(Pde(old(ms.mem), d, vaddr / PAGE / 1024)) then 0 else 1)
  {
    hide GetWord, SetWord, BitsAgree, FreeSet, Inv, SlotFilled, EntryFilled, PageMapped, Pte, MakeEntry, Or;
    ghost var vp, p := vaddr / PAGE, paddr / PAGE;
    var found, t, j := FindPte(ms, d, vaddr, true);
    ghost var m1, o1 := ms.mem, ms.owner;
    UnmappedStill(old(ms.mem), m1, old(ms.owner), d, vp);
    assert IsUserTable(vp / 1024);
    MakeEntryFields(p, perm);
    var w := Or(Or(paddr, perm), 1);
    assert w == MakeEntry(p, perm) by { JoinEntry(paddr, perm); }
    LinkPage(m1, o1, ms.kdir, d, vp, p, w);
    MappedFrom(old(ms.mem), old(ms.owner), m1, o1, d, vp, p, w, t, SetWord(m1[t], j, w));
    ms.mem := ms.mem[t := SetWord(ms.mem[t], j, w)];
    ms.owner := ms.owner[p := User(d, vp)];
    FreeSetSame(o1, p, User(d, vp));
    RetagAgrees(ms.bitmap.Bits(), ms.base, o1, p, User(d, vp));
  }

  lemma JoinEntry(paddr: nat, perm: nat)
    requires paddr % PAGE == 0
    ensures Or(Or(paddr, perm), 1) == MakeEntry(paddr / PAGE, perm)
  {
    assert paddr / PAGE * PAGE == paddr;
  }

  lemma UnmappedStill(m: Mem, m1: Mem, o: seq<Owner>, d: nat, vp: nat)
    requires |o| == |m| == |m1| && d < |m| && o[d] == Dir && IsUser(vp) && vp / 1024 < 1024
    requires SlotFilled(m, m1, o, d, vp / 1024, Pde(m1, d, vp / 1024))
    ensures Mapped(m1, d, vp) == Mapped(m, d, vp)
  {
  }

  // ----- allocating and mapping a page -----

  lemma SubsetSize<T>(a: set<T>, b: set<T>)
    requires a <= b
    ensures |a| <= |b|
  {
    if a != b {
      assert b == a + (b - a);
    }
  }

  lemma RolesOf(m: Mem, d: nat)
    requires d < |m|
    ensures DirPage in Roles(m, d)
    ensures forall i: nat :: TablePage(i) in Roles(m, d) <==> IsUserTable(i) && Present(Pde(m, d, i))
    ensures forall vp: nat :: UserPage(vp) in Roles(m, d) <==> IsUser(vp) && Mapped(m, d, vp)
  {
  }

  /** Frames the next mapping may take, given enough frames for the goal. */
  lemma EnoughForOne(m: Mem, o: seq<Owner>, d: nat, goal: set<Role>, vp: nat)
    requires d < |m| && Enough(m, o, d, goal) && IsUser(vp) && !Mapped(m, d, vp)
    requires UserPage(vp) in goal && TablePage(vp / 1024) in goal
    ensures |FreeSet(o)| >= if vp / 1024 < 1024 && Present(Pde(m, d, vp / 1024)) then 1 else 2
  {
    hide Roles, FreeSet, Pde, Pte;
    RolesOf(m, d);
    var gap := goal - Roles(m, d);
    SubsetSize({UserPage(vp)}, gap);
    if !(vp / 1024 < 1024 && Present(Pde(m, d, vp / 1024))) {
      SubsetSize({UserPage(vp), TablePage(vp / 1024)}, gap);
      assert |{UserPage(vp), TablePage(vp / 1024)}| == 2;
    }
  }

  /** Mapping a page adds exactly its own role and its table's. */
  lemma RolesAfter(m: Mem, o: seq<Owner>, m': Mem, o': seq<Owner>, d: nat, vp: nat, p: nat, w: Word)
    requires PageMapped(m, o, m', o', d, vp, p, w) && o[d] == Dir && Present(w)
    ensures Roles(m', d) == Roles(m, d) + {TablePage(vp / 1024), UserPage(vp)}
  {
    hide Roles, Pde, Pte;
    RolesOf(m, d);
    RolesOf(m', d);
    assert IsUserTable(vp / 1024);
    forall r ensures r in Roles(m', d) <==> r in Roles(m, d) + {TablePage(vp / 1024), UserPage(vp)} {
      match r {
        case DirPage =>
        case TablePage(i) =>
          if IsUserTable(i) && i != vp / 1024 { assert Pde(m', d, i) == Pde(m, d, i); }
        case UserPage(x) =>
          if IsUser(x) { assert Pte(m', d, x) == if x == vp then w else Pte(m, d, x); }
      }
    }
  }

  lemma EnoughAfter(m: Mem, o: seq<Owner>, m': Mem, o': seq<Owner>, d: nat, goal: set<Role>, vp: nat)
    requires d < |m| && d < |m'| && Enough(m, o, d, goal) && IsUser(vp) && !Mapped(m, d, vp)
    requires UserPage(vp) in goal && TablePage(vp / 1024) in goal && vp / 1024 < 1024
    requires Roles(m', d) == Roles(m, d) + {TablePage(vp / 1024), UserPage(vp)}
    requires |FreeSet(o')| == |FreeSet(o)| - (if Present(Pde(m, d, vp / 1024)) then 1 else 2)
    ensures Enough(m', o', d, goal)
  {
    hide Roles, FreeSet, Pde, Pte;
    RolesOf(m, d);
    var gap, gap' := goal - Roles(m, d), goal - Roles(m', d);
    if Present(Pde(m, d, vp / 1024)) {
      assert gap' == gap - {UserPage(vp)};
    } else {
      assert gap' == gap - {UserPage(vp)} - {TablePage(vp / 1024)};
    }
  }

  /** Like `PageMapped`, with a page that was free before. */
  ghost predicate FreshMapped(m: Mem, o: seq<Owner>, m': Mem, o': seq<Owner>, d: nat, vp: nat, p: nat, w: Word) {
    && p < |o| == |m| && o[p] == Free && PageMapped(m, o[p := Single], m', o', d, vp, p, w)
  }

  method MapFresh(ms: Memory, d: nat, vaddr: Word, perm: nat, ghost goal: set<Role>) returns (paddr: nat)
    requires ms.Valid() && d < |ms.mem| && ms.owner[d] == Dir && IsUser(vaddr / PAGE)
    requires !Mapped(ms.mem, d, vaddr / PAGE) && perm < PAGE
    requires Enough(ms.mem, ms.owner, d, goal)
    requires UserPage(vaddr / PAGE) in goal && TablePage(vaddr / PAGE / 1024) in goal
    modifies ms`mem, ms`owner, ms.bitmap.bits
    ensures ms.Valid() && paddr % PAGE == 0 && d < |ms.mem| == |old(ms.mem)| && ms.owner[d] == Dir
    ensures paddr / PAGE < |ms.mem|
    ensures MakeEntry(paddr / PAGE, perm) < TWO32 && Present(MakeEntry(paddr / PAGE, perm))
    ensures FrameOf(MakeEntry(paddr / PAGE, perm)) == paddr / PAGE
    ensures FreshMapped(old(ms.mem), old(ms.owner), ms.mem, ms.owner, d, vaddr / PAGE, paddr / PAGE,
        MakeEntry(paddr / PAGE, perm))
    ensures Enough(ms.mem, ms.owner, d, goal)
  {
    hide GetWord, BitsAgree, FreeSet, Inv, PageMapped, Pte, Pde, MakeEntry, Roles, Enough;
    ghost var vp := vaddr / PAGE;
    EnoughForOne(ms.mem, ms.owner, d, goal, vp);
    paddr := ms.AddrAllocPage();
    ghost var o1 := ms.owner;
    MemoryCreateMap(ms, d, vaddr, paddr, perm);
    MakeEntryFields(paddr / PAGE, perm);
    RolesAfter(old(ms.mem), o1, ms.mem, ms.owner, d, vp, paddr / PAGE, MakeEntry(paddr / PAGE, perm));
    MappedKeepsDir(old(ms.mem), o1, ms.mem, ms.owner, d, vp, paddr / PAGE, MakeEntry(paddr / PAGE, perm));
    EnoughAfter(old(ms.mem), old(ms.owner), ms.mem, ms.owner, d, goal, vp);
  }

  lemma MappedKeepsDir(m: Mem, o: seq<Owner>, m': Mem, o': seq<Owner>, d: nat, vp: nat, p: nat, w: Word)
    requires PageMapped(m, o, m', o', d, vp, p, w) && o[d] == Dir && o[p] != Dir
    ensures o'[d] == Dir && |m'| == |m| && p < |m|
  {
  }

  // ----- memory_create_uvm -----

  /** A new space shares the kernel's directory entries and maps no user page. */
  method MemoryCreateUvm(ms: Memory) returns (pageDir: nat)
    requires ms.Valid() && FreeSet(ms.owner) != {}
    modifies ms`mem, ms`owner, ms.bitmap.bits
    ensures ms.Valid() && pageDir % PAGE == 0 && |ms.mem| == |old(ms.mem)|
    ensures var d := pageDir / PAGE;
      && 0 < d < |ms.mem| && old(ms.owner)[d] == Free && ms.owner == old(ms.owner)[d := Dir]
      && (forall x :: 0 <= x < |ms.mem| && x != d ==> ms.mem[x] == old(ms.mem)[x])
      && (forall i :: 0 <= i < 512 ==> Pde(ms.mem, d, i) == Pde(ms.mem, ms.kdir, i))
      && Roles(ms.mem, d) == {DirPage}
    ensures |FreeSet(ms.owner)| == |FreeSet(old(ms.owner))| - 1
  {
    hide GetWord, SetWord, BitsAgree, FreeSet, Inv, Pte, Roles;
    pageDir := ms.AddrAllocPage();
    var d := pageDir / PAGE;
    ghost var o1 := ms.owner;
    ClearPage(ms, d);
    KernelApart(ms.mem, o1, ms.kdir, d);
    for i := 0 to 512
      invariant ms.Valid() && ms.owner == o1 && |ms.mem| == |old(ms.mem)|
      invariant forall x :: 0 <= x < |ms.mem| && x != d ==> ms.mem[x] == old(ms.mem)[x]
      invariant forall k :: 0 <= k < i ==> Pde(ms.mem, d, k) == Pde(ms.mem, ms.kdir, k)
      invariant forall k :: i <= k < 1024 ==> Pde(ms.mem, d, k) == 0
    {
      var w := GetWord(ms.mem[ms.kdir], i);
      ghost var was := ms.mem;
      DataWrite(ms.mem, ms.owner, ms.kdir, d, SetWord(was[d], i, w));
      ms.mem := ms.mem[d := SetWord(ms.mem[d], i, w)];
      forall k | 0 <= k < 1024
        ensures Pde(ms.mem, d, k) == (if k == i then w else Pde(was, d, k))
        ensures Pde(ms.mem, ms.kdir, k) == Pde(was, ms.kdir, k)
      {
        GetSetWord(was[d], i, w, k);
      }
    }
    NewDir(ms.mem, o1, ms.kdir, d);
    EmptyRoles(ms.mem, d);
    FreeSetSame(o1, d, Dir);
    ms.owner := ms.owner[d := Dir];
    RetagAgrees(ms.bitmap.Bits(), ms.base, o1, d, Dir);
  }

  lemma KernelApart(m: Mem, o: seq<Owner>, kdir: nat, d: nat)
    requires Inv(m, o, kdir) && d < |m| && o[d] == Single
    ensures d != kdir && kdir < |m|
  {
  }

  lemma EmptyRoles(m: Mem, d: nat)
    requires d < |m|
    requires forall i :: 512 <= i < 1024 ==> Pde(m, d, i) == 0
    requires forall vp :: IsUser(vp) ==> Pte(m, d, vp) == 0
    ensures Roles(m, d) == {DirPage}
  {
    hide Roles, Pde, Pte;
    RolesOf(m, d);
    forall r ensures r in Roles(m, d) <==> r == DirPage {}
  }

  /** `kernel_memset(page, 0, MEM_PAGE_SIZE)` on a page just taken. */
  method ClearPage(ms: Memory, d: nat)
    requires ms.Valid() && d < |ms.mem| && ms.owner[d] == Single
    modifies ms`mem
    ensures ms.Valid() && ms.mem == old(ms.mem)[d := ZERO_PAGE]
    ensures forall k :: 0 <= k < 1024 ==> Pde(ms.mem, d, k) == 0
  {
    hide GetWord, BitsAgree, Inv;
    DataWrite(ms.mem, ms.owner, ms.kdir, d, ZERO_PAGE);
    ms.mem := ms.mem[d := ZERO_PAGE];
    forall k | 0 <= k < 1024 ensures GetWord(ZERO_PAGE, k) == 0 { ZeroWord(k); }
  }

  // ----- memory_copy_uvm -----

  /** Entry `vp` of the copy `d` corresponds to the one of `src`: mapped or not alike,
      same permission bits, same bytes, in a page that was free before the copy. */
  ghost predicate SameEntry(m0: Mem, o0: seq<Owner>, m: Mem, src: nat, d: nat, vp: nat)
    requires |m0| == |o0| == |m| && src < |m| && d < |m| && vp < VPAGES
  {
    && (Mapped(m, d, vp) <==> Mapped(m0, src, vp))
    && (Mapped(m, d, vp) ==>
          var q, p := PageOf(m, d, vp), PageOf(m0, src, vp);
          && q < |m| && p < |m| && o0[q] == Free
          && Perm(Pte(m, d, vp)) == Perm(Pte(m0, src, vp))
          && m[q] == m0[p])
  }

  /** The copy is done for the pages below `n`. */
  ghost predicate Copying(m0: Mem, o0: seq<Owner>, m: Mem, o: seq<Owner>, src: nat, d: nat, n: nat) {
    && |m0| == |o0| == |m| == |o| && src < |m| && d < |m|
    && o0[src] == Dir && o0[d] == Free && o[d] == Dir
    && (forall x :: 0 <= x < |m| && o0[x] != Free ==> m[x] == m0[x] && o[x] == o0[x])
    && (forall x :: 0 <= x < |m| && o0[x] == Free && o[x] != Free ==> BelongsTo(o[x], x, d))
    && (forall vp :: IsUser(vp) && vp < n ==> SameEntry(m0, o0, m, src, d, vp))
    && (forall vp :: IsUser(vp) && vp >= n ==> !Mapped(m, d, vp))
  }

  /** The source's entries and pages read the same during the copy. */
  lemma SourceStable(m0: Mem, o0: seq<Owner>, kdir: nat, m: Mem, o: seq<Owner>, src: nat, d: nat, n: nat)
    requires Inv(m0, o0, kdir) && Copying(m0, o0, m, o, src, d, n)
    ensures forall i :: 0 <= i < 1024 ==> Pde(m, src, i) == Pde(m0, src, i)
    ensures forall vp :: IsUser(vp) ==> Pte(m, src, vp) == Pte(m0, src, vp)
    ensures forall vp :: IsUser(vp) && Mapped(m0, src, vp) ==>
              && PageOf(m0, src, vp) < |m| && m[PageOf(m0, src, vp)] == m0[PageOf(m0, src, vp)]
              && o0[PageOf(m0, src, vp)] == User(src, vp)
  {
    hide GetWord, SameEntry;
    forall vp | IsUser(vp) ensures Pte(m, src, vp) == Pte(m0, src, vp) {
      assert IsUserTable(vp / 1024);
      var pde := Pde(m0, src, vp / 1024);
      assert Pde(m, src, vp / 1024) == pde;
    }
  }

  /** An unmapped page is skipped. */
  lemma CopySkips(m0: Mem, o0: seq<Owner>, m: Mem, o: seq<Owner>, src: nat, d: nat, n: nat, n': nat)
    requires Copying(m0, o0, m, o, src, d, n) && n <= n' <= VPAGES
    requires forall vp :: IsUser(vp) && n <= vp < n' ==> !Mapped(m0, src, vp)
    ensures Copying(m0, o0, m, o, src, d, n')
  {
    hide Pte, Pde, PageOf;
  }

  /** A mapped page is copied. */
  lemma CopyTakes(m0: Mem, o0: seq<Owner>, kdir: nat, m: Mem, o: seq<Owner>, src: nat, d: nat, vp: nat,
                  m1: Mem, o1: seq<Owner>, p: nat, w: Word)
    requires Inv(m0, o0, kdir) && Inv(m, o, kdir) && Inv(m1, o1, kdir) && Copying(m0, o0, m, o, src, d, vp)
    requires IsUser(vp) && Mapped(m0, src, vp)
    requires FreshMapped(m, o, m1, o1, d, vp, p, w)
    requires Present(w) && FrameOf(w) == p && Perm(w) == Perm(Pte(m0, src, vp))
    ensures o1[p] == User(d, vp) && PageOf(m0, src, vp) < |m1| == |m0|
    ensures Copying(m0, o0, m1[p := m0[PageOf(m0, src, vp)]], o1, src, d, vp + 1)
  {
    hide GetWord, Pde, Perm, Inv, SameEntry;
    SourceStable(m0, o0, kdir, m, o, src, d, vp);
    var m2 := m1[p := m0[PageOf(m0, src, vp)]];
    DataWrite(m1, o1, kdir, p, m0[PageOf(m0, src, vp)]);
    CopyFrame(m0, o0, kdir, m, o, src, d, vp, m1, o1, p, w, m2);
    forall x | IsUser(x) && x < vp + 1 ensures SameEntry(m0, o0, m2, src, d, x) {
      if x < vp {
        CopiedStays(m0, o0, kdir, m, o, src, d, vp, m1, o1, p, w, m2, x);
      } else {
        EntryCopied(m0, o0, m2, src, d, vp, p, w);
      }
    }
  }

  lemma CopyFrame(m0: Mem, o0: seq<Owner>, kdir: nat, m: Mem, o: seq<Owner>, src: nat, d: nat, vp: nat,
                  m1: Mem, o1: seq<Owner>, p: nat, w: Word, m2: Mem)
    requires Inv(m0, o0, kdir) && Copying(m0, o0, m, o, src, d, vp) && FreshMapped(m, o, m1, o1, d, vp, p, w)
    requires |m2| == |m1| && forall x :: 0 <= x < |m1| && x != p ==> m2[x] == m1[x]
    ensures forall x :: 0 <= x < |m| && o0[x] != Free ==> m2[x] == m0[x] && o1[x] == o0[x]
    ensures forall x :: 0 <= x < |m| && o0[x] == Free && o1[x] != Free ==> BelongsTo(o1[x], x, d)
    ensures o1[d] == Dir
  {
    hide Pde, Pte, SameEntry;
    forall x | 0 <= x < |m| && o0[x] != Free ensures m2[x] == m0[x] && o1[x] == o0[x] {
      if o0[x].Table? { assert TableLinked(m0, o0, o0[x].d, o0[x].i, x); }
    }
  }

  /** A page copied earlier is not disturbed by copying another. */
  lemma CopiedStays(m0: Mem, o0: seq<Owner>, kdir: nat, m: Mem, o: seq<Owner>, src: nat, d: nat, vp: nat,
                    m1: Mem, o1: seq<Owner>, p: nat, w: Word, m2: Mem, x: nat)
    requires Inv(m, o, kdir) && Copying(m0, o0, m, o, src, d, vp) && FreshMapped(m, o, m1, o1, d, vp, p, w)
    requires |m2| == |m1| && (forall y :: 0 <= y < |m1| && y != p ==> m2[y] == m1[y])
    requires SameTables(m1, m2, o1) && o1[d] == Dir
    requires IsUser(x) && x < vp
    ensures SameEntry(m0, o0, m2, src, d, x)
  {
    hide Pde, Pte, Perm;
    assert SameEntry(m0, o0, m, src, d, x);
    assert Pte(m2, d, x) == Pte(m1, d, x) == Pte(m, d, x);
    if Mapped(m, d, x) { assert o[PageOf(m, d, x)] == User(d, x); }
  }

  lemma EntryCopied(m0: Mem, o0: seq<Owner>, m2: Mem, src: nat, d: nat, vp: nat, p: nat, w: Word)
    requires |m0| == |o0| == |m2| && src < |m0| && d < |m0| && p < |m0| && IsUser(vp)
    requires Mapped(m0, src, vp) && PageOf(m0, src, vp) < |m0| && o0[p] == Free
    requires Present(w) && FrameOf(w) == p && Perm(w) == Perm(Pte(m0, src, vp))
    requires Pte(m2, d, vp) == w && m2[p] == m0[PageOf(m0, src, vp)]
    ensures SameEntry(m0, o0, m2, src, d, vp)
  {
  }

  lemma CopyStarts(m0: Mem, o0: seq<Owner>, m: Mem, o: seq<Owner>, src: nat, d: nat)
    requires |m0| == |o0| == |m| && src < |m| && d < |m| && o0[src] == Dir && o0[d] == Free && o == o0[d := Dir]
    requires forall x :: 0 <= x < |m| && x != d ==> m[x] == m0[x]
    requires Roles(m, d) == {DirPage}
    ensures Copying(m0, o0, m, o, src, d, 1024 * 512)
  {
    hide Roles, Pde, Pte;
    RolesOf(m, d);
    forall vp | IsUser(vp) ensures !Mapped(m, d, vp) {
      assert UserPage(vp) !in Roles(m, d);
    }
  }

  lemma StartEnough(m0: Mem, o0: seq<Owner>, m: Mem, o: seq<Owner>, d: nat, goal: set<Role>)
    requires d < |m| && Roles(m, d) == {DirPage} && DirPage in goal
    requires |goal| <= |FreeSet(o0)| && |FreeSet(o)| == |FreeSet(o0)| - 1
    ensures Enough(m, o, d, goal)
  {
    hide Roles, FreeSet;
    assert goal == (goal - {DirPage}) + {DirPage};
  }

  lemma CopyEnds(m0: Mem, o0: seq<Owner>, m: Mem, o: seq<Owner>, kdir: nat, src: nat, d: nat)
    requires Copying(m0, o0, m, o, src, d, 1024 * 1024) && Inv(m, o, kdir)
    ensures CopyOf(m0, o0, m, o, kdir, src, d)
  {
    hide Pde, Pte, SameEntry;
  }

  /** The loop reads the source's own entry. */
  lemma TableInMemory(m0: Mem, o0: seq<Owner>, kdir: nat, m: Mem, o: seq<Owner>, src: nat, d: nat, vp: nat)
    requires Inv(m0, o0, kdir) && Copying(m0, o0, m, o, src, d, vp) && IsUser(vp)
    requires vp / 1024 < 1024 && Present(Pde(m, src, vp / 1024))
    ensures FrameOf(Pde(m, src, vp / 1024)) < |m|
    ensures Pte(m0, src, vp) == GetWord(m[FrameOf(Pde(m, src, vp / 1024))], vp % 1024)
    ensures Present(Pde(m0, src, vp / 1024))
  {
    hide GetWord, SameEntry;
    assert IsUserTable(vp / 1024);
    assert Pde(m, src, vp / 1024) == Pde(m0, src, vp / 1024);
  }

  lemma CopyReady(m0: Mem, o0: seq<Owner>, m: Mem, o: seq<Owner>, src: nat, d: nat, vp: nat)
    requires Copying(m0, o0, m, o, src, d, vp) && IsUser(vp)
    ensures !Mapped(m, d, vp) && o[d] == Dir
  {
  }

  lemma PermBound(w: Word)
    ensures Perm(w) < PAGE
  {
    hide And, Pow2;
    Pow2Values();
    AndLowMask(w, 9);
  }

  /** After mapping a page into the copy, the source still reads as it did at the start. */
  lemma SourceReadsSame(m0: Mem, o0: seq<Owner>, kdir: nat, m: Mem, o: seq<Owner>, m1: Mem, o1: seq<Owner>,
                        src: nat, d: nat, vp: nat, p: nat, w: Word)
    requires Inv(m0, o0, kdir) && Copying(m0, o0, m, o, src, d, vp) && FreshMapped(m, o, m1, o1, d, vp, p, w)
    requires IsUser(vp) && Mapped(m0, src, vp)
    ensures src < |m1| && PageOf(m1, src, vp) == PageOf(m0, src, vp) < |m1|
    ensures m1[PageOf(m0, src, vp)] == m0[PageOf(m0, src, vp)]
  {
    hide Pde, Pte, SameEntry;
    SourceStable(m0, o0, kdir, m, o, src, d, vp);
    assert Pte(m1, src, vp) == Pte(m, src, vp);
    var q := PageOf(m0, src, vp);
    assert o0[q] == User(src, vp) && o[q] == o0[q];
  }

  lemma EnoughKept(m: Mem, o: seq<Owner>, kdir: nat, d: nat, p: nat, x: Page, goal: set<Role>)
    requires Inv(m, o, kdir) && d < |m| == |o| && o[d] == Dir && p < |m| && o[p].User?
    requires Enough(m, o, d, goal)
    ensures Enough(m[p := x], o, d, goal)
  {
    hide Inv, Roles, Pde, Pte, FreeSet;
    DataWrite(m, o, kdir, p, x);
    RolesOf(m, d);
    RolesOf(m[p := x], d);
    forall r ensures r in Roles(m[p := x], d) <==> r in Roles(m, d) {
      match r {
        case DirPage =>
        case TablePage(i) => if IsUserTable(i) { assert Pde(m[p := x], d, i) == Pde(m, d, i); }
        case UserPage(vp) => if IsUser(vp) { assert Pte(m[p := x], d, vp) == Pte(m, d, vp); }
      }
    }
    assert Roles(m[p := x], d) == Roles(m, d);
  }

  /** What a finished copy is: the same user pages with the same permission bits and
      bytes, in pages that were free; the kernel's entries; nothing else changed, and
      every page taken belongs to the copy. */
  ghost predicate CopyOf(m0: Mem, o0: seq<Owner>, m: Mem, o: seq<Owner>, kdir: nat, src: nat, d: nat) {
    && |m0| == |o0| == |m| == |o| && src < |m| && d < |m| && kdir < |m|
    && o0[d] == Free && o[d] == Dir
    && (forall vp :: IsUser(vp) ==> SameEntry(m0, o0, m, src, d, vp))
    && (forall i :: 0 <= i < 512 ==> Pde(m, d, i) == Pde(m, kdir, i))
    && (forall x :: 0 <= x < |m| && o0[x] != Free ==> m[x] == m0[x] && o[x] == o0[x])
    && (forall x :: 0 <= x < |m| && o0[x] == Free && o[x] != Free ==> BelongsTo(o[x], x, d))
  }

  /** `memory_copy_uvm`, called as `sys_fork` does with the current space as source,
      so that `vaddr` reads the source's page. */
  method MemoryCopyUvm(ms: Memory, pageDir: nat) returns (toPageDir: nat)
    requires ms.Valid() && pageDir % PAGE == 0 && pageDir / PAGE < |ms.mem| && ms.owner[pageDir / PAGE] == Dir
    requires |Roles(ms.mem, pageDir / PAGE)| <= |FreeSet(ms.owner)|
    modifies ms`mem, ms`owner, ms.bitmap.bits
    ensures ms.Valid() && toPageDir % PAGE == 0
    ensures CopyOf(old(ms.mem), old(ms.owner), ms.mem, ms.owner, ms.kdir, pageDir / PAGE, toPageDir / PAGE)
  {
    hide GetWord, BitsAgree, FreeSet, Inv, Pte, Pde, Roles, Copying, Enough, MakeEntry, Or;
    ghost var m0, o0 := ms.mem, ms.owner;
    var src := pageDir / PAGE;
    ghost var goal := Roles(m0, src);
    RolesOf(m0, src);
    SubsetSize({DirPage}, goal);
    toPageDir := MemoryCreateUvm(ms);
    var d := toPageDir / PAGE;
    CopyStarts(m0, o0, ms.mem, ms.owner, src, d);
    StartEnough(m0, o0, ms.mem, ms.owner, d, goal);
    for i := 512 to 1024
      invariant ms.Valid() && src < |ms.mem| && d < |ms.mem| == |m0|
      invariant Copying(m0, o0, ms.mem, ms.owner, src, d, 1024 * i)
      invariant Enough(ms.mem, ms.owner, d, goal)
    {
      SourceStable(m0, o0, ms.kdir, ms.mem, ms.owner, src, d, 1024 * i);
      var pde := Pde(ms.mem, src, i);
      if !Present(pde) {
        NoTable(m0, src, i);
        CopySkips(m0, o0, ms.mem, ms.owner, src, d, 1024 * i, 1024 * i + 1024);
        continue;
      }
      CopyTable(ms, src, d, i, m0, o0, goal);
    }
    CopyEnds(m0, o0, ms.mem, ms.owner, ms.kdir, src, d);
  }

  lemma NoTable(m: Mem, src: nat, i: nat)
    requires src < |m| && i < 1024 && !Present(Pde(m, src, i))
    ensures forall vp :: IsUser(vp) && 1024 * i <= vp < 1024 * i + 1024 ==> !Mapped(m, src, vp)
  {
    forall vp | IsUser(vp) && 1024 * i <= vp < 1024 * i + 1024 ensures !Mapped(m, src, vp) {
      assert vp / 1024 == i;
    }
  }

  /** The inner loop: every entry of one table. */
  method CopyTable(ms: Memory, src: nat, d: nat, i: nat, ghost m0: Mem, ghost o0: seq<Owner>, ghost goal: set<Role>)
    requires ms.Valid() && Inv(m0, o0, ms.kdir) && 512 <= i < 1024 && src < |ms.mem| && d < |ms.mem| == |m0| == |o0|
    requires Copying(m0, o0, ms.mem, ms.owner, src, d, 1024 * i)
    requires Enough(ms.mem, ms.owner, d, goal) && goal == Roles(m0, src) && Present(Pde(m0, src, i))
    modifies ms`mem, ms`owner, ms.bitmap.bits
    ensures ms.Valid() && |ms.mem| == |m0|
    ensures Copying(m0, o0, ms.mem, ms.owner, src, d, 1024 * i + 1024)
    ensures Enough(ms.mem, ms.owner, d, goal)
  {
    hide GetWord, BitsAgree, FreeSet, Inv, Pde, Roles, Copying, Enough, MakeEntry, Or;
    RolesOf(m0, src);
    for j := 0 to 1024
      invariant ms.Valid() && src < |ms.mem| && d < |ms.mem| == |m0|
      invariant Copying(m0, o0, ms.mem, ms.owner, src, d, 1024 * i + j)
      invariant Enough(ms.mem, ms.owner, d, goal)
    {
      ghost var vp := 1024 * i + j;
      SourceStable(m0, o0, ms.kdir, ms.mem, ms.owner, src, d, vp);
      TableInMemory(m0, o0, ms.kdir, ms.mem, ms.owner, src, d, vp);
      var pte := GetWord(ms.mem[FrameOf(Pde(ms.mem, src, i))], j);
      if !Present(pte) {
        CopySkips(m0, o0, ms.mem, ms.owner, src, d, vp, vp + 1);
        continue;
      }
      JoinIndex(i, j);
      var vaddr := Or(i * 0x40_0000, j * PAGE);
      assert vaddr / PAGE == vp;
      CopyPage(ms, src, d, vaddr, pte, m0, o0, goal);
    }
  }

  /** One present entry: take a page, map it with the same permissions, copy the bytes. */
  method CopyPage(ms: Memory, src: nat, d: nat, vaddr: Word, pte: Word, ghost m0: Mem, ghost o0: seq<Owner>,
                  ghost goal: set<Role>)
    requires ms.Valid() && Inv(m0, o0, ms.kdir) && src < |ms.mem| && d < |ms.mem| == |m0| == |o0|
    requires IsUser(vaddr / PAGE) && Mapped(m0, src, vaddr / PAGE) && pte == Pte(m0, src, vaddr / PAGE)
    requires Copying(m0, o0, ms.mem, ms.owner, src, d, vaddr / PAGE)
    requires Enough(ms.mem, ms.owner, d, goal)
    requires UserPage(vaddr / PAGE) in goal && TablePage(vaddr / PAGE / 1024) in goal
    modifies ms`mem, ms`owner, ms.bitmap.bits
    ensures ms.Valid() && |ms.mem| == |m0|
    ensures Copying(m0, o0, ms.mem, ms.owner, src, d, vaddr / PAGE + 1)
    ensures Enough(ms.mem, ms.owner, d, goal)
  {
    hide GetWord, BitsAgree, FreeSet, Inv, Pde, Pte, Roles, Copying, Enough, MakeEntry, Or, And, PageMapped;
    ghost var vp := vaddr / PAGE;
    ghost var m, o := ms.mem, ms.owner;
    CopyReady(m0, o0, m, o, src, d, vp);
    PermBound(pte);
    var page := MapFresh(ms, d, vaddr, Perm(pte), goal);
    var p := page / PAGE;
    ghost var w := MakeEntry(p, Perm(pte));
    PermCopied(p, pte);
    CopyTakes(m0, o0, ms.kdir, m, o, src, d, vp, ms.mem, ms.owner, p, w);
    SourceReadsSame(m0, o0, ms.kdir, m, o, ms.mem, ms.owner, src, d, vp, p, w);
    DataWrite(ms.mem, ms.owner, ms.kdir, p, m0[PageOf(m0, src, vp)]);
    EnoughKept(ms.mem, ms.owner, ms.kdir, d, p, m0[PageOf(m0, src, vp)], goal);
    // kernel_memcpy(page, vaddr): the current space is the source
    ms.mem := ms.mem[p := ms.mem[PageOf(ms.mem, src, vaddr / PAGE)]];
  }
}
