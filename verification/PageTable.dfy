/** Physical memory, two-level page tables stored in it, and who owns each frame
    (mmu.h, memory.c; 32-bit paging, section 4.3 of the Intel SDM volume 3A). */
module PageTable {
  import opened Bits

  const PAGE: nat := 4096
  const USER_BASE: nat := 0x8_0000       // MEM_TASK_BASE in pages
  const VPAGES: nat := 0x10_0000         // pages in 4 GiB

  type Word = x: int | 0 <= x < TWO32
  type Page = s: seq<Byte> | |s| == PAGE witness seq(PAGE, _ => 0)

  // ----- words in a page -----

  function Encode(w: Word): (r: seq<Byte>)
    ensures |r| == 4
  {
    [w % 0x100, (w / 0x100) % 0x100, (w / 0x1_0000) % 0x100, w / 0x100_0000]
  }

  lemma DecodeEncode(w: Word)
    ensures var e := Encode(w); Word32(e[0], e[1], e[2], e[3]) == w
  {
    var a := w / 0x100;
    var b := a / 0x100;
    assert w == 0x100 * a + w % 0x100;
    assert a == 0x100 * b + a % 0x100 && w / 0x1_0000 == b;
    assert b == 0x100 * (b / 0x100) + b % 0x100 && w / 0x100_0000 == b / 0x100;
  }

  function GetWord(p: Page, k: nat): Word
    requires k < 1024
  {
    Word32(p[4 * k], p[4 * k + 1], p[4 * k + 2], p[4 * k + 3])
  }

  function SetWord(p: Page, k: nat, w: Word): Page
    requires k < 1024
  {
    p[..4 * k] + Encode(w) + p[4 * k + 4..]
  }

  lemma GetSetWord(p: Page, k: nat, w: Word, j: nat)
    requires k < 1024 && j < 1024
    ensures GetWord(SetWord(p, k, w), j) == if j == k then w else GetWord(p, j)
  {
    hide Encode, Word32;
    var r, e := SetWord(p, k, w), Encode(w);
    DecodeEncode(w);
    if j == k {
      assert r[4 * j] == e[0] && r[4 * j + 1] == e[1] && r[4 * j + 2] == e[2] && r[4 * j + 3] == e[3];
    }
  }

  const ZERO_PAGE: Page := seq(PAGE, _ => 0)

  lemma ZeroWord(k: nat)
    requires k < 1024
    ensures GetWord(ZERO_PAGE, k) == 0
  {
  }

  // ----- entries -----

  predicate Present(w: Word) { w % 2 == 1 }

  /** `pde_paddr` / `pte_paddr`, as a page number. */
  function FrameOf(w: Word): (f: nat) { w / PAGE }

  /** Entry value `paddr | perm | P` for the frame `f`. */
  function MakeEntry(f: nat, perm: nat): nat { Or(Or(f * PAGE, perm), 1) }

  /** `get_pte_perm`. */
  function Perm(w: Word): nat { And(w, 0x1FF) }

  lemma Pow2Values()
    ensures Pow2(9) == 512 && Pow2(10) == 1024 && Pow2(12) == PAGE && Pow2(22) == 0x40_0000
  {
    assert Pow2(5) == 32;
    assert Pow2(9) == 512;
    assert Pow2(12) == 4096;
    assert Pow2(17) == 0x2_0000;
    assert Pow2(22) == 0x40_0000;
  }

  /** Permission bits never disturb the frame number. */
  lemma MakeEntryFields(f: nat, perm: nat)
    requires f < VPAGES && perm < PAGE
    ensures MakeEntry(f, perm) == f * PAGE + Or(perm, 1)
    ensures MakeEntry(f, perm) < TWO32 && Present(MakeEntry(f, perm)) && FrameOf(MakeEntry(f, perm)) == f
    ensures Perm(MakeEntry(f, perm)) == Or(perm, 1) % 512
  {
    hide Or, And, Pow2, Perm, Present, FrameOf;
    EntryValue(f, perm);
    EntryParts(f, Or(perm, 1));
  }

  lemma EntryValue(f: nat, perm: nat)
    requires f < VPAGES && perm < PAGE
    ensures MakeEntry(f, perm) == f * PAGE + Or(perm, 1) && Or(perm, 1) < PAGE && Or(perm, 1) % 2 == 1
  {
    hide Or, Pow2;
    Pow2Values();
    OrDisjoint(f * PAGE, perm, 12);
    OrOdd(perm);
    OrOdd(f * PAGE + perm);
  }

  /** An odd number below the page size in the low bits leaves the frame number as it is. */
  lemma EntryParts(f: nat, low: nat)
    requires f < VPAGES && low < PAGE && low % 2 == 1
    ensures f * PAGE + low < TWO32 && Present(f * PAGE + low) && FrameOf(f * PAGE + low) == f
    ensures Perm(f * PAGE + low) == low % 512
  {
    hide And, Pow2;
    Pow2Values();
    var w := f * PAGE + low;
    WordParts(f, low, w);
    AndLowMask(w, 9);
  }

  lemma WordParts(f: nat, low: nat, w: nat)
    requires f < 0x10_0000 && low < 4096 && w == 4096 * f + low
    ensures w < TWO32 && w / 4096 == f && w % 512 == low % 512 && w % 2 == low % 2
  {
    ModUnique(w, 4096, f, low);
    ModShift(8 * f, 512, low, w);
    ModShift(2048 * f, 2, low, w);
  }

  lemma ModShift(q: nat, m: nat, low: nat, w: nat)
    requires m > 0 && w == q * m + low
    ensures w % m == low % m
  {
    var a, r := low / m, low % m;
    assert (q + a) * m == q * m + a * m;
    ModUnique(w, m, q + a, r);
  }

  lemma OrOdd(a: nat)
    ensures Or(a, 1) == if a % 2 == 1 then a else a + 1
  {
    if a > 0 { assert Or(a / 2, 0) == a / 2; }
  }

  /** Copying an entry's permissions keeps its low nine bits. */
  lemma PermCopied(f: nat, w: Word)
    requires f < VPAGES && Present(w)
    ensures Perm(w) < PAGE && MakeEntry(f, Perm(w)) < TWO32 && Perm(MakeEntry(f, Perm(w))) == Perm(w)
  {
    hide Or, And, Pow2, MakeEntry;
    PermIsLow(w);
    MakeEntryFields(f, w % 512);
    OrOdd(w % 512);
    ModUnique(w % 512, 512, 0, w % 512);
    OddStays(w);
  }

  lemma PermIsLow(w: Word)
    ensures Perm(w) == w % 512
  {
    hide And, Pow2;
    Pow2Values();
    AndLowMask(w, 9);
  }

  lemma OddStays(w: nat)
    ensures w % 512 % 2 == w % 2
  {
    ModShift(256 * (w / 512), 2, w % 512, w);
  }

  /** `pde_index`, `pte_index` and the offset split a virtual address. */
  function PdeIndex(va: Word): nat { va / 0x40_0000 }
  function PteIndex(va: Word): nat { And(va / PAGE, 0x3FF) }

  lemma IndexSplit(va: Word)
    ensures PdeIndex(va) == va / PAGE / 1024 < 1024 && PteIndex(va) == va / PAGE % 1024
  {
    hide And, Pow2;
    Pow2Values();
    AndLowMask(va / PAGE, 10);
  }

  /** `(i << 22) | (j << 12)` is the address of page `1024 * i + j`. */
  lemma JoinIndex(i: nat, j: nat)
    requires i < 1024 && j < 1024
    ensures Or(i * 0x40_0000, j * PAGE) == (1024 * i + j) * PAGE
  {
    hide Or, Pow2;
    Pow2Values();
    assert i * 0x40_0000 % 0x40_0000 == 0;
    OrDisjoint(i * 0x40_0000, j * PAGE, 22);
  }

  // ----- address spaces in memory -----

  type Mem = seq<Page>

  function Pde(m: Mem, d: nat, i: nat): Word
    requires d < |m| && i < 1024
  {
    GetWord(m[d], i)
  }

  /** The page-table entry for virtual page `vp`, 0 when its table is absent. */
  function Pte(m: Mem, d: nat, vp: nat): Word
    requires d < |m| && vp < VPAGES
  {
    var pde := Pde(m, d, vp / 1024);
    if Present(pde) && FrameOf(pde) < |m| then GetWord(m[FrameOf(pde)], vp % 1024) else 0
  }

  predicate Mapped(m: Mem, d: nat, vp: nat)
    requires d < |m| && vp < VPAGES
  {
    Present(Pte(m, d, vp))
  }

  function PageOf(m: Mem, d: nat, vp: nat): nat
    requires d < |m| && vp < VPAGES
  {
    FrameOf(Pte(m, d, vp))
  }

  // ----- ownership -----

  /** What a physical page is used for. Low memory and the kernel's own tables are
      `Reserved`; `Single` is a page handed out by `memory_alloc_one_page`. */
  datatype Owner =
    | Free
    | Reserved
    | Single
    | Dir
    | Table(d: nat, i: nat)
    | User(d: nat, vp: nat)

  predicate IsUser(vp: int) { USER_BASE <= vp < VPAGES }
  predicate IsUserTable(i: int) { 512 <= i < 1024 }

  /** The frames of directory `d`. */
  predicate BelongsTo(o: Owner, p: nat, d: nat) {
    || (o == Dir && p == d)
    || (o.Table? && o.d == d)
    || (o.User? && o.d == d)
  }

  /** Every present entry of a live directory refers to a frame owned for exactly
      that entry, and every owned frame is referred to by that entry. Since a frame
      has one owner, directories, tables and user pages are pairwise disjoint. Directory
      entries of tables are present, writable and for users; page entries that are not
      present are zero. */
  ghost predicate Inv(m: Mem, o: seq<Owner>, kdir: nat) {
    && |o| == |m| <= VPAGES && kdir < |m| && o[kdir] == Reserved
    && (forall d, i :: 0 <= d < |m| && o[d] == Dir && IsUserTable(i) && Present(Pde(m, d, i))
          ==> FrameOf(Pde(m, d, i)) < |m| && o[FrameOf(Pde(m, d, i))] == Table(d, i) && Pde(m, d, i) % PAGE == 7)
    && (forall d, vp :: 0 <= d < |m| && o[d] == Dir && IsUser(vp) && Mapped(m, d, vp)
          ==> PageOf(m, d, vp) < |m| && o[PageOf(m, d, vp)] == User(d, vp))
    && (forall d, vp :: 0 <= d < |m| && o[d] == Dir && IsUser(vp) ==> Mapped(m, d, vp) || Pte(m, d, vp) == 0)
    && (forall p :: 0 <= p < |m| && o[p].Table?
          ==> TableLinked(m, o, o[p].d, o[p].i, p))
    && (forall p :: 0 <= p < |m| && o[p].User?
          ==> PageLinked(m, o, o[p].d, o[p].vp, p))
    && (forall d, i :: 0 <= d < |m| && o[d] == Dir && 0 <= i < 512 ==> Pde(m, d, i) == Pde(m, kdir, i))
  }

  ghost predicate TableLinked(m: Mem, o: seq<Owner>, d: nat, i: nat, p: nat)
    requires |o| == |m|
  {
    d < |m| && o[d] == Dir && IsUserTable(i) && Present(Pde(m, d, i)) && FrameOf(Pde(m, d, i)) == p
  }

  ghost predicate PageLinked(m: Mem, o: seq<Owner>, d: nat, vp: nat, p: nat)
    requires |o| == |m|
  {
    d < |m| && o[d] == Dir && IsUser(vp) && Mapped(m, d, vp) && PageOf(m, d, vp) == p
  }

  /** Different mapped pages of live directories lie in different frames. */
  lemma FramesDistinct(m: Mem, o: seq<Owner>, kdir: nat, d: nat, vp: nat, d': nat, vp': nat)
    requires Inv(m, o, kdir)
    requires d < |m| && d' < |m| && o[d] == Dir && o[d'] == Dir && IsUser(vp) && IsUser(vp')
    requires Mapped(m, d, vp) && Mapped(m, d', vp') && (d != d' || vp != vp')
    ensures PageOf(m, d, vp) != PageOf(m, d', vp')
  {
  }
}
