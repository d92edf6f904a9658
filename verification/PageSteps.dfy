/** The elementary changes to page tables, each with what it keeps. */
module PageSteps {
  import opened Bits
  import opened PageTable

  /** No live directory's entries differ between `m` and `m'`. */
  ghost predicate SameTables(m: Mem, m': Mem, o: seq<Owner>)
    requires |o| == |m| == |m'|
  {
    && (forall d, i :: 0 <= d < |m| && o[d] == Dir && 0 <= i < 1024 ==> Pde(m', d, i) == Pde(m, d, i))
    && (forall d, vp :: 0 <= d < |m| && o[d] == Dir && IsUser(vp) ==> Pte(m', d, vp) == Pte(m, d, vp))
  }

  /** Slot `i` of directory `d` got value `w`; nothing else differs and nothing new is mapped. */
  ghost predicate SlotFilled(m: Mem, m': Mem, o: seq<Owner>, d: nat, i: nat, w: Word)
    requires |o| == |m| == |m'|
  {
    && d < |m| && i < 1024 && Pde(m', d, i) == w
    && (forall d', i' :: 0 <= d' < |m| && o[d'] == Dir && 0 <= i' < 1024 && !(d' == d && i' == i)
          ==> Pde(m', d', i') == Pde(m, d', i'))
    && (forall d', vp :: 0 <= d' < |m| && o[d'] == Dir && IsUser(vp) ==> Pte(m', d', vp) == Pte(m, d', vp))
  }

  lemma SlotFilledFrom(m: Mem, m1: Mem, m2: Mem, o: seq<Owner>, o1: seq<Owner>, d: nat, i: nat, w: Word)
    requires |o| == |m| == |m1| == |m2| == |o1|
    requires SameTables(m, m1, o) && SlotFilled(m1, m2, o1, d, i, w)
    requires forall x :: 0 <= x < |m| && o[x] == Dir ==> o1[x] == Dir
    ensures SlotFilled(m, m2, o, d, i, w)
  {
    hide Pte, Pde;
  }

  /** Pages that hold neither a directory nor a table can be written freely. */
  lemma DataWrite(m: Mem, o: seq<Owner>, kdir: nat, p: nat, x: Page)
    requires Inv(m, o, kdir) && p < |m|
    requires !o[p].Dir? && !o[p].Table? && !o[p].Reserved?
    ensures Inv(m[p := x], o, kdir) && SameTables(m, m[p := x], o)
  {
    hide GetWord;
    var m' := m[p := x];
    forall d, vp | 0 <= d < |m| && o[d] == Dir && IsUser(vp) ensures Pte(m', d, vp) == Pte(m, d, vp) {
      var pde := Pde(m, d, vp / 1024);
      assert IsUserTable(vp / 1024);
    }
    assert SameTables(m, m', o);
  }

  /** Taking a free frame, or giving back a single page. */
  lemma Retag(m: Mem, o: seq<Owner>, kdir: nat, p: nat, x: Owner)
    requires Inv(m, o, kdir) && p < |m|
    requires (o[p] == Free && x == Single) || (o[p] == Single && x == Free)
    ensures Inv(m, o[p := x], kdir)
  {
    hide GetWord;
    var o' := o[p := x];
    forall d, i | 0 <= d < |m| && o'[d] == Dir && IsUserTable(i) && Present(Pde(m, d, i))
      ensures FrameOf(Pde(m, d, i)) < |m| && o'[FrameOf(Pde(m, d, i))] == Table(d, i)
    { assert o[d] == Dir; }
    forall d, vp | 0 <= d < |m| && o'[d] == Dir && IsUser(vp) && Mapped(m, d, vp)
      ensures PageOf(m, d, vp) < |m| && o'[PageOf(m, d, vp)] == User(d, vp)
    { assert o[d] == Dir; }
  }

  /** `pde->v = paddr | PDE_P | PDE_W | PDE_U`. */
  function PdeValue(f: nat): nat { Or(Or(Or(f * PAGE, 1), 2), 4) }

  lemma PdeValueFields(f: nat)
    requires f < VPAGES
    ensures PdeValue(f) == f * PAGE + 7 && Present(PdeValue(f)) && FrameOf(PdeValue(f)) == f
  {
    hide Or, Pow2, Perm;
    EntryParts(f, 7);
    Pow2Values();
    assert f * PAGE % PAGE == 0;
    OrDisjoint(f * PAGE, 1, 12);
    assert Or(f * PAGE, 1) == f * PAGE + 1;
    OrPlus(f * PAGE, 1, 2, 12);
    OrPlus(f * PAGE, 3, 4, 12);
    Or12();
  }

  lemma Or12()
    ensures Or(1, 2) == 3 && Or(3, 4) == 7
  {
    assert Or(0, 1) == 1 && Or(1, 2) == 3;
  }

  /** Low bits are or-ed below a multiple of a power of two. */
  lemma {:induction false} OrPlus(hi: nat, a: nat, b: nat, k: nat)
    requires hi % Pow2(k) == 0 && a < Pow2(k) && b < Pow2(k)
    ensures Or(hi + a, b) == hi + Or(a, b)
    decreases k
  {
    if k == 0 {
      assert Or(hi, 0) == hi;
    } else if b == 0 {
    } else {
      Pow2Half(hi, k);
      OrPlus(hi / 2, a / 2, b / 2, k - 1);
      assert (hi + a) / 2 == hi / 2 + a / 2;
    }
  }

  /** Hooking a zeroed page into an empty directory slot maps nothing new. */
  lemma LinkTable(m: Mem, o: seq<Owner>, kdir: nat, d: nat, i: nat, t: nat, w: Word)
    requires Inv(m, o, kdir) && d < |m| && o[d] == Dir && IsUserTable(i) && !Present(Pde(m, d, i))
    requires t < |m| && o[t] == Single && m[t] == ZERO_PAGE && Present(w) && FrameOf(w) == t && w % PAGE == 7
    ensures var m' := m[d := SetWord(m[d], i, w)]; var o' := o[t := Table(d, i)];
      Inv(m', o', kdir) && SlotFilled(m, m', o, d, i, w)
  {
    hide GetWord, SetWord;
    var m' := m[d := SetWord(m[d], i, w)];
    var o' := o[t := Table(d, i)];
    LinkTablePdes(m, o, d, i, w);
    forall d', vp | 0 <= d' < |m| && o[d'] == Dir && IsUser(vp) ensures Pte(m', d', vp) == Pte(m, d', vp) {
      assert IsUserTable(vp / 1024);
      if d' == d && vp / 1024 == i {
        ZeroWord(vp % 1024);
        assert m'[t] == ZERO_PAGE;
      } else {
        var pde := Pde(m, d', vp / 1024);
        assert Pde(m', d', vp / 1024) == pde;
      }
    }
    LinkTableInv(m, o, kdir, d, i, t, w);
  }

  lemma LinkTablePdes(m: Mem, o: seq<Owner>, d: nat, i: nat, w: Word)
    requires |o| == |m| && d < |m| && i < 1024
    ensures var m' := m[d := SetWord(m[d], i, w)];
      && Pde(m', d, i) == w
      && (forall d', i' :: 0 <= d' < |m| && 0 <= i' < 1024 && (d' != d || i' != i) ==>
          Pde(m', d', i') == Pde(m, d', i'))
  {
    hide GetWord, SetWord;
    var m' := m[d := SetWord(m[d], i, w)];
    GetSetWord(m[d], i, w, i);
    forall d', i' | 0 <= d' < |m| && 0 <= i' < 1024 && (d' != d || i' != i) ensures Pde(m', d', i') == Pde(m, d', i') {
      GetSetWord(m[d], i, w, i');
    }
  }

  lemma LinkTableInv(m: Mem, o: seq<Owner>, kdir: nat, d: nat, i: nat, t: nat, w: Word)
    requires Inv(m, o, kdir) && d < |m| && o[d] == Dir && IsUserTable(i) && !Present(Pde(m, d, i))
    requires t < |m| && o[t] == Single && Present(w) && FrameOf(w) == t && w % PAGE == 7
    requires var m' := m[d := SetWord(m[d], i, w)];
      && Pde(m', d, i) == w
      && (forall d', i' :: 0 <= d' < |m| && 0 <= i' < 1024 && (d' != d || i' != i) ==>
          Pde(m', d', i') == Pde(m, d', i'))
      && (forall d', vp :: 0 <= d' < |m| && o[d'] == Dir && IsUser(vp) ==> Pte(m', d', vp) == Pte(m, d', vp))
    ensures Inv(m[d := SetWord(m[d], i, w)], o[t := Table(d, i)], kdir)
  {
    hide GetWord, SetWord, Pte, Pde;
    var m' := m[d := SetWord(m[d], i, w)];
    var o' := o[t := Table(d, i)];
    forall p | 0 <= p < |m| && o'[p].Table? ensures TableLinked(m', o', o'[p].d, o'[p].i, p) {
      if p != t { assert TableLinked(m, o, o[p].d, o[p].i, p); }
    }
    forall p | 0 <= p < |m| && o'[p].User? ensures PageLinked(m', o', o'[p].d, o'[p].vp, p) {
      assert PageLinked(m, o, o[p].d, o[p].vp, p);
    }
    forall d', vp | 0 <= d' < |m| && o'[d'] == Dir && IsUser(vp) && Mapped(m', d', vp)
      ensures PageOf(m', d', vp) < |m| && o'[PageOf(m', d', vp)] == User(d', vp)
    {
      assert Pte(m', d', vp) == Pte(m, d', vp) && Mapped(m, d', vp);
    }
  }

  /** Entry `vp` of directory `d` got value `w`; directories and all other entries are as before. */
  ghost predicate EntryFilled(m: Mem, m': Mem, o: seq<Owner>, d: nat, vp: nat, w: Word)
    requires |o| == |m| == |m'|
  {
    && (forall d', i :: 0 <= d' < |m| && o[d'] == Dir && 0 <= i < 1024 ==> Pde(m', d', i) == Pde(m, d', i))
    && (forall d', vp' :: 0 <= d' < |m| && o[d'] == Dir && IsUser(vp') ==>
          Pte(m', d', vp') == if d' == d && vp' == vp then w else Pte(m, d', vp'))
  }

  /** Writing an entry of an existing table maps one page. */
  lemma LinkPage(m: Mem, o: seq<Owner>, kdir: nat, d: nat, vp: nat, p: nat, w: Word)
    requires Inv(m, o, kdir) && d < |m| && o[d] == Dir && IsUser(vp)
    requires Present(Pde(m, d, vp / 1024)) && !Mapped(m, d, vp)
    requires p < |m| && o[p] == Single && Present(w) && FrameOf(w) == p
    ensures FrameOf(Pde(m, d, vp / 1024)) < |m|
    ensures var t := FrameOf(Pde(m, d, vp / 1024));
      var m' := m[t := SetWord(m[t], vp % 1024, w)]; var o' := o[p := User(d, vp)];
      && o[t] == Table(d, vp / 1024)
      && Inv(m', o', kdir) && EntryFilled(m, m', o, d, vp, w)
  {
    hide GetWord, SetWord;
    assert IsUserTable(vp / 1024);
    var t := FrameOf(Pde(m, d, vp / 1024));
    assert o[t] == Table(d, vp / 1024);
    var m' := m[t := SetWord(m[t], vp % 1024, w)];
    forall d', vp' | 0 <= d' < |m| && o[d'] == Dir && IsUser(vp')
      ensures Pte(m', d', vp') == if d' == d && vp' == vp then w else Pte(m, d', vp')
    {
      assert IsUserTable(vp' / 1024);
      var pde := Pde(m, d', vp' / 1024);
      assert Pde(m', d', vp' / 1024) == pde;
      GetSetWord(m[t], vp % 1024, w, vp' % 1024);
      if Present(pde) && FrameOf(pde) == t { assert d' == d && vp' / 1024 == vp / 1024; }
    }
    LinkPageInv(m, o, kdir, d, vp, p, w, m');
  }

  lemma LinkPageInv(m: Mem, o: seq<Owner>, kdir: nat, d: nat, vp: nat, p: nat, w: Word, m': Mem)
    requires Inv(m, o, kdir) && d < |m| && o[d] == Dir && IsUser(vp) && !Mapped(m, d, vp)
    requires p < |m| && o[p] == Single && Present(w) && FrameOf(w) == p && |m'| == |m|
    requires m'[kdir] == m[kdir]
    requires forall d', i :: 0 <= d' < |m| && o[d'] == Dir && 0 <= i < 1024 ==> Pde(m', d', i) == Pde(m, d', i)
    requires forall d', vp' :: 0 <= d' < |m| && o[d'] == Dir && IsUser(vp') ==>
            Pte(m', d', vp') == if d' == d && vp' == vp then w else Pte(m, d', vp')
    ensures Inv(m', o[p := User(d, vp)], kdir)
  {
    hide GetWord, Pte;
    var o' := o[p := User(d, vp)];
    forall x | 0 <= x < |m| && o'[x].Table? ensures TableLinked(m', o', o'[x].d, o'[x].i, x) {
      assert TableLinked(m, o, o[x].d, o[x].i, x);
    }
    forall x | 0 <= x < |m| && o'[x].User? ensures PageLinked(m', o', o'[x].d, o'[x].vp, x) {
      if x != p { assert PageLinked(m, o, o[x].d, o[x].vp, x); }
    }
    forall d', vp' | 0 <= d' < |m| && o'[d'] == Dir && IsUser(vp') && Mapped(m', d', vp')
      ensures PageOf(m', d', vp') < |m| && o'[PageOf(m', d', vp')] == User(d', vp')
    {
      assert o[d'] == Dir;
      if !(d' == d && vp' == vp) { assert Mapped(m, d', vp'); }
    }
    forall d', i | 0 <= d' < |m| && o'[d'] == Dir && 0 <= i < 512 ensures Pde(m', d', i) == Pde(m', kdir, i) {
      assert o[d'] == Dir;
    }
  }

  /** A page holding the kernel's entries and nothing else becomes an empty space. */
  lemma NewDir(m: Mem, o: seq<Owner>, kdir: nat, d: nat)
    requires Inv(m, o, kdir) && d < |m| && o[d] == Single
    requires forall i :: 0 <= i < 512 ==> Pde(m, d, i) == Pde(m, kdir, i)
    requires forall i :: 512 <= i < 1024 ==> Pde(m, d, i) == 0
    ensures Inv(m, o[d := Dir], kdir)
    ensures forall vp :: IsUser(vp) ==> Pte(m, d, vp) == 0
  {
    hide GetWord;
    var o' := o[d := Dir];
    forall x | 0 <= x < |m| && o'[x].Table? ensures TableLinked(m, o', o'[x].d, o'[x].i, x) {
      assert TableLinked(m, o, o[x].d, o[x].i, x);
    }
    forall x | 0 <= x < |m| && o'[x].User? ensures PageLinked(m, o', o'[x].d, o'[x].vp, x) {
      assert PageLinked(m, o, o[x].d, o[x].vp, x);
    }
    forall vp | IsUser(vp) ensures Pte(m, d, vp) == 0 { assert 512 <= vp / 1024 < 1024; }
    forall d', vp | 0 <= d' < |m| && o'[d'] == Dir && IsUser(vp) && Mapped(m, d', vp)
      ensures PageOf(m, d', vp) < |m| && o'[PageOf(m, d', vp)] == User(d', vp)
    {
      if d' != d { assert o[d'] == Dir; }
    }
  }

  /** The owners once directory `d` and everything it owns is free. */
  function Released(o: seq<Owner>, d: nat): (r: seq<Owner>)
    ensures |r| == |o|
  {
    seq(|o|, p requires 0 <= p < |o| => if BelongsTo(o[p], p, d) then Free else o[p])
  }

  /** Releasing one space leaves a sound state for all others. */
  lemma ReleasedInv(m: Mem, o: seq<Owner>, kdir: nat, d: nat)
    requires Inv(m, o, kdir) && d < |m| && o[d] == Dir
    ensures Inv(m, Released(o, d), kdir)
  {
    hide GetWord, Pte, Pde;
    var o' := Released(o, d);
    forall x | 0 <= x < |m| && o'[x].Table? ensures TableLinked(m, o', o'[x].d, o'[x].i, x) {
      assert TableLinked(m, o, o[x].d, o[x].i, x);
    }
    forall x | 0 <= x < |m| && o'[x].User? ensures PageLinked(m, o', o'[x].d, o'[x].vp, x) {
      assert PageLinked(m, o, o[x].d, o[x].vp, x);
    }
    forall d', i | 0 <= d' < |m| && o'[d'] == Dir && IsUserTable(i) && Present(Pde(m, d', i))
      ensures FrameOf(Pde(m, d', i)) < |m| && o'[FrameOf(Pde(m, d', i))] == Table(d', i)
    { assert o[d'] == Dir; }
    forall d', vp | 0 <= d' < |m| && o'[d'] == Dir && IsUser(vp) && Mapped(m, d', vp)
      ensures PageOf(m, d', vp) < |m| && o'[PageOf(m, d', vp)] == User(d', vp)
    { assert o[d'] == Dir; }
  }
}
