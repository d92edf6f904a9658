/** What the processor makes of the tables: where an address leads and what a user may do there. */
module PageRights {
  import opened Bits
  import opened PageTable
  import opened PageSteps
  import opened Uvm
  import opened UserMem

  // ----- the processor's walk -----

  /** The byte at a physical address. */
  function PhysByte(m: Mem, a: int): int {
    if 0 <= a && a / PAGE < |m| then m[a / PAGE][a % PAGE] else 0
  }

  /** ... and the little-endian word from there on. */
  function PhysWord(m: Mem, a: int): int {
    PhysByte(m, a) + 0x100 * PhysByte(m, a + 1) + 0x1_0000 * PhysByte(m, a + 2) + 0x100_0000 * PhysByte(m, a + 3)
  }

  /** Bits 22 to 31 of an address pick a word of the directory in frame `d`, which holds the
      address of a table, and bits 12 to 21 pick a word of that. */
  function WalkPde(m: Mem, d: nat, va: nat): int {
    PhysWord(m, d * PAGE + 4 * (va / 0x40_0000))
  }

  function WalkPte(m: Mem, d: nat, va: nat): int {
    PhysWord(m, WalkPde(m, d, va) / PAGE * PAGE + 4 * (va / PAGE % 1024))
  }

  lemma WordInPage(m: Mem, p: nat, k: nat)
    requires p < |m| && k < 1024
    ensures PhysWord(m, p * PAGE + 4 * k) == GetWord(m[p], k)
  {
    InPage(p, 4 * k);
    InPage(p, 4 * k + 1);
    InPage(p, 4 * k + 2);
    InPage(p, 4 * k + 3);
  }

  lemma InPage(p: nat, k: nat)
    requires k < PAGE
    ensures (p * PAGE + k) / PAGE == p && (p * PAGE + k) % PAGE == k
  {
    ModUnique(p * PAGE + k, PAGE, p, k);
  }

  /** For an address of a mapped page both words have their present bit set, and the second holds
      the address of the frame that the model names. */
  lemma WalkLeads(m: Mem, o: seq<Owner>, kdir: nat, d: nat, va: Word)
    requires Inv(m, o, kdir) && d < |m| && o[d] == Dir && IsUser(va / PAGE) && Mapped(m, d, va / PAGE)
    ensures WalkPde(m, d, va) % 2 == 1 && WalkPte(m, d, va) % 2 == 1
    ensures WalkPte(m, d, va) / PAGE == PageOf(m, d, va / PAGE) < |m|
  {
    hide GetWord, PhysWord;
    var vp := va / PAGE;
    assert vp / 1024 == va / 0x40_0000;
    assert IsUserTable(vp / 1024);
    WordInPage(m, d, vp / 1024);
    WordInPage(m, FrameOf(Pde(m, d, vp / 1024)), vp % 1024);
  }

  // ----- rights -----

  /** Users reach a page when both its entries have the present and the user bit, and may write
      there when both have the write bit as well (section 4.6 of the Intel SDM volume 3A). */
  predicate MayRead(m: Mem, d: nat, vp: nat)
    requires d < |m| && vp < VPAGES
  {
    var pde, pte := Pde(m, d, vp / 1024), Pte(m, d, vp);
    pde % 2 == 1 && pte % 2 == 1 && pde / 4 % 2 == 1 && pte / 4 % 2 == 1
  }

  predicate MayWrite(m: Mem, d: nat, vp: nat)
    requires d < |m| && vp < VPAGES
  {
    MayRead(m, d, vp) && Pde(m, d, vp / 1024) / 2 % 2 == 1 && Pte(m, d, vp) / 2 % 2 == 1
  }

  /** The directory never takes away what the page entry grants. */
  lemma RightsOfPage(m: Mem, o: seq<Owner>, kdir: nat, d: nat, vp: nat)
    requires Inv(m, o, kdir) && d < |m| && o[d] == Dir && IsUser(vp)
    ensures MayRead(m, d, vp) <==> Mapped(m, d, vp) && Perm(Pte(m, d, vp)) / 4 % 2 == 1
    ensures MayWrite(m, d, vp) <==> MayRead(m, d, vp) && Perm(Pte(m, d, vp)) / 2 % 2 == 1
  {
    hide GetWord, Perm, Inv, Pde, Pte;
    PermIsLow(Pte(m, d, vp));
    LowBits(Pte(m, d, vp));
    if Mapped(m, d, vp) { DirectoryBits(m, o, kdir, d, vp); }
  }

  lemma DirectoryBits(m: Mem, o: seq<Owner>, kdir: nat, d: nat, vp: nat)
    requires Inv(m, o, kdir) && d < |m| && o[d] == Dir && IsUser(vp) && Mapped(m, d, vp)
    ensures var pde := Pde(m, d, vp / 1024); pde % 2 == 1 && pde / 2 % 2 == 1 && pde / 4 % 2 == 1
  {
    hide GetWord;
    assert IsUserTable(vp / 1024);
    LowBits(Pde(m, d, vp / 1024));
  }

  /** Bits 1 and 2 are among the low 9, and among the low 12. */
  lemma LowBits(w: nat)
    ensures w % 512 / 4 % 2 == w / 4 % 2 && w % 512 / 2 % 2 == w / 2 % 2
    ensures w % PAGE / 4 % 2 == w / 4 % 2 && w % PAGE / 2 % 2 == w / 2 % 2
  {
    Bits12(64 * (w / 512), w % 512, w);
    Bits12(512 * (w / PAGE), w % PAGE, w);
  }

  lemma Bits12(m: nat, r: nat, w: nat)
    requires w == 8 * m + r
    ensures r / 4 % 2 == w / 4 % 2 && r / 2 % 2 == w / 2 % 2
  {
    ModUnique(w, 4, 2 * m + r / 4, r % 4);
    ModUnique(w, 2, 4 * m + r / 2, r % 2);
    ModUnique(2 * m + r / 4, 2, m + r / 4 / 2, r / 4 % 2);
    ModUnique(4 * m + r / 2, 2, 2 * m + r / 2 / 2, r / 2 % 2);
  }

  /** In a copied space every page may be read and written exactly where it may in the source. */
  lemma CopyKeepsRights(m0: Mem, o0: seq<Owner>, m: Mem, o: seq<Owner>, kdir: nat, src: nat, d: nat, vp: nat)
    requires Inv(m0, o0, kdir) && Inv(m, o, kdir) && CopyOf(m0, o0, m, o, kdir, src, d)
    requires o0[src] == Dir && IsUser(vp)
    ensures MayRead(m, d, vp) <==> MayRead(m0, src, vp)
    ensures MayWrite(m, d, vp) <==> MayWrite(m0, src, vp)
  {
    hide MayRead, MayWrite, Mapped, Pte, Perm, Inv;
    RightsOfPage(m0, o0, kdir, src, vp);
    RightsOfPage(m, o, kdir, d, vp);
    assert SameEntry(m0, o0, m, src, d, vp);
  }

  /** The pages that a growing heap gets may be read and written. */
  lemma HeapIsWritable(m: Mem, o: seq<Owner>, m': Mem, o': seq<Owner>, kdir: nat, d: nat, vp: nat, n: nat, x: nat)
    requires Extended(m, o, m', o', d, vp, n, 7) && Inv(m', o', kdir) && o'[d] == Dir
    requires IsUser(x) && vp <= x < vp + n
    ensures MayRead(m', d, x) && MayWrite(m', d, x)
  {
    hide MayRead, MayWrite, Pte, Pde, MakeEntry, Perm;
    RightsOfPage(m', o', kdir, d, x);
    MakeEntryFields(PageOf(m', d, x), 7);
    OrOdd(7);
    assert Perm(MakeEntry(PageOf(m', d, x), 7)) == 7;
  }
}
