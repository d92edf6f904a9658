/** The argument block of a new program: `copy_args` (task.c:548-567). */
module CopyArgs {
  import opened Bits
  import opened PageTable
  import opened PageSteps
  import opened Frames
  import opened Uvm
  import opened UvmDestroy
  import opened UserCopy

  const ARGS_SIZE: nat := 12   // sizeof(task_args_t): ret_addr, argc, argv

  /** Where the copy of argument `i` starts; for `i == |argv|`, the end of the block. */
  function ArgAddr(to: nat, argv: seq<seq<Byte>>, i: nat): nat
    requires i <= |argv|
  {
    if i == 0 then to + ARGS_SIZE + 4 * (|argv| + 1)
    else ArgAddr(to, argv, i - 1) + |argv[i - 1]| + 1
  }

  /** Arguments follow the table and each other without overlap. */
  lemma {:induction false} ArgAddrOrder(to: nat, argv: seq<seq<Byte>>, k: nat, i: nat)
    requires k < i <= |argv|
    ensures to + ARGS_SIZE + 4 * (|argv| + 1) <= ArgAddr(to, argv, k)
    ensures ArgAddr(to, argv, k) + |argv[k]| + 1 <= ArgAddr(to, argv, i)
    decreases i
  {
    if k < i - 1 { ArgAddrOrder(to, argv, k, i - 1); } else if k > 0 { ArgAddrOrder(to, argv, k - 1, k); }
  }

  lemma ArgAddrBase(to: nat, argv: seq<seq<Byte>>, i: nat)
    requires i <= |argv|
    ensures to + ARGS_SIZE + 4 * (|argv| + 1) <= ArgAddr(to, argv, i)
  {
    if i > 0 { ArgAddrOrder(to, argv, 0, i); }
  }

  // ----- what a program reads -----

  ghost predicate BytesAt(m: Mem, d: nat, va: nat, b: seq<Byte>)
    requires d < |m|
  {
    forall k :: va <= k < va + |b| ==> Reach(m, d, k) && VirtByte(m, d, k) == b[k - va]
  }

  ghost predicate WordAt(m: Mem, d: nat, va: nat, w: Word)
    requires d < |m|
  {
    BytesAt(m, d, va, Encode(w))
  }

  ghost predicate ReachAll(m: Mem, d: nat, lo: nat, hi: nat)
    requires d < |m|
  {
    forall va :: lo <= va < hi ==> Reach(m, d, va)
  }

  /** The word a program loads from `va`. */
  ghost function VirtWord(m: Mem, d: nat, va: nat): Word
    requires d < |m| && ReachAll(m, d, va, va + 4)
  {
    Word32(VirtByte(m, d, va), VirtByte(m, d, va + 1), VirtByte(m, d, va + 2), VirtByte(m, d, va + 3))
  }

  lemma WordRead(m: Mem, d: nat, va: nat, w: Word)
    requires d < |m| && WordAt(m, d, va, w)
    ensures ReachAll(m, d, va, va + 4) && VirtWord(m, d, va) == w
  {
    hide Reach, VirtByte, Encode, Word32;
    DecodeEncode(w);
    assert forall k :: va <= k < va + 4 ==> Reach(m, d, k);
    assert VirtByte(m, d, va) == Encode(w)[0] && VirtByte(m, d, va + 1) == Encode(w)[1];
    assert VirtByte(m, d, va + 2) == Encode(w)[2] && VirtByte(m, d, va + 3) == Encode(w)[3];
  }

  lemma BytesStored(m: Mem, m': Mem, o: seq<Owner>, d: nat, to: nat, b: seq<Byte>)
    requires Stored(m, m', o, d, to, b) && ReachAll(m, d, to, to + |b|)
    ensures BytesAt(m', d, to, b)
  {
    hide Reach, VirtByte, SameTables;
  }

  /** A store elsewhere keeps bytes, and reachability everywhere. */
  lemma BytesKept(m: Mem, m': Mem, o: seq<Owner>, d: nat, to: nat, c: seq<Byte>, va: nat, b: seq<Byte>)
    requires Stored(m, m', o, d, to, c) && BytesAt(m, d, va, b)
    requires va + |b| <= to || to + |c| <= va
    ensures BytesAt(m', d, va, b)
  {
    hide Reach, VirtByte, SameTables;
  }

  lemma ReachKept(m: Mem, m': Mem, o: seq<Owner>, d: nat, to: nat, c: seq<Byte>, lo: nat, hi: nat)
    requires Stored(m, m', o, d, to, c) && ReachAll(m, d, lo, hi)
    ensures ReachAll(m', d, lo, hi)
  {
    hide Reach, VirtByte, SameTables;
  }

  /** Only bytes of space `d` at addresses from `lo` to `hi` differ. */
  ghost predicate ChangedWithin(m: Mem, m': Mem, o: seq<Owner>, d: nat, lo: nat, hi: nat) {
    && |m| == |m'| == |o| && d < |m| && o[d] == Dir
    && SameTables(m, m', o)
    && (forall x :: 0 <= x < |m| && !(o[x].User? && o[x].d == d) ==> m'[x] == m[x])
    && (forall va :: Reach(m, d, va) ==>
        Reach(m', d, va) && (lo <= va < hi || VirtByte(m', d, va) == VirtByte(m, d, va)))
  }

  lemma WithinRefl(m: Mem, o: seq<Owner>, d: nat, lo: nat, hi: nat)
    requires |m| == |o| && d < |m| && o[d] == Dir
    ensures ChangedWithin(m, m, o, d, lo, hi)
  {
  }

  lemma WithinStore(m: Mem, m1: Mem, m2: Mem, o: seq<Owner>, d: nat, lo: nat, hi: nat, to: nat, b: seq<Byte>)
    requires ChangedWithin(m, m1, o, d, lo, hi) && Stored(m1, m2, o, d, to, b)
    requires lo <= to && to + |b| <= hi
    ensures ChangedWithin(m, m2, o, d, lo, hi)
  {
    hide Reach, VirtByte, Pde, Pte;
  }

  // ----- copying -----

  /** Table entries and strings of the first `i` arguments are in place. */
  ghost predicate ArgsDone(m: Mem, d: nat, to: nat, argv: seq<seq<Byte>>, i: nat)
    requires d < |m| && i <= |argv|
  {
    forall k :: 0 <= k < i ==> ArgDone(m, d, to, argv, k)
  }

  ghost predicate ArgDone(m: Mem, d: nat, to: nat, argv: seq<seq<Byte>>, k: nat)
    requires d < |m| && k < |argv|
  {
    && ArgAddr(to, argv, k) < TWO32
    && WordAt(m, d, to + ARGS_SIZE + 4 * k, ArgAddr(to, argv, k))
    && BytesAt(m, d, ArgAddr(to, argv, k), argv[k] + [0])
  }

  /** A store that hits neither the entry nor the string of argument `k` keeps it. */
  lemma ArgKept(m: Mem, m': Mem, o: seq<Owner>, d: nat, to: nat, argv: seq<seq<Byte>>, k: nat, at: nat, c: seq<Byte>)
    requires d < |m| && k < |argv| && ArgDone(m, d, to, argv, k) && Stored(m, m', o, d, at, c)
    requires at + |c| <= to + ARGS_SIZE + 4 * k || to + ARGS_SIZE + 4 * k + 4 <= at
    requires at + |c| <= ArgAddr(to, argv, k) || ArgAddr(to, argv, k) + |argv[k]| + 1 <= at
    ensures ArgDone(m', d, to, argv, k)
  {
    hide Reach, VirtByte, SameTables, ArgAddr, Stored, BytesAt;
    BytesKept(m, m', o, d, at, c, to + ARGS_SIZE + 4 * k, Encode(ArgAddr(to, argv, k)));
    BytesKept(m, m', o, d, at, c, ArgAddr(to, argv, k), argv[k] + [0]);
  }

  /** One round: the string, then its table entry. */
  lemma ArgsStep(m: Mem, m1: Mem, m2: Mem, o: seq<Owner>, d: nat, to: nat, argv: seq<seq<Byte>>, i: nat)
    requires d < |m| == |m1| == |m2| && i < |argv| && ArgsDone(m, d, to, argv, i) && ArgAddr(to, argv, |argv|) <= TWO32
    requires ArgAddr(to, argv, i) < TWO32
    requires ReachAll(m, d, to, ArgAddr(to, argv, |argv|))
    requires Stored(m, m1, o, d, ArgAddr(to, argv, i), argv[i] + [0])
    requires Stored(m1, m2, o, d, to + ARGS_SIZE + 4 * i, Encode(ArgAddr(to, argv, i)))
    ensures ArgsDone(m2, d, to, argv, i + 1)
  {
    hide Reach, VirtByte, SameTables, ArgAddr, Stored, ArgDone, ReachAll, BytesAt;
    var end := ArgAddr(to, argv, |argv|);
    ArgAddrOrder(to, argv, i, |argv|);
    ArgAddrBase(to, argv, i);
    forall k | 0 <= k < i ensures ArgDone(m2, d, to, argv, k) {
      ArgAddrOrder(to, argv, k, i);
      ArgKept(m, m1, o, d, to, argv, k, ArgAddr(to, argv, i), argv[i] + [0]);
      ArgKept(m1, m2, o, d, to, argv, k, to + ARGS_SIZE + 4 * i, Encode(ArgAddr(to, argv, i)));
    }
    ReachPart(m, d, to, end, ArgAddr(to, argv, i), ArgAddr(to, argv, i) + |argv[i]| + 1);
    BytesStored(m, m1, o, d, ArgAddr(to, argv, i), argv[i] + [0]);
    BytesKept(m1, m2, o, d, to + ARGS_SIZE + 4 * i, Encode(ArgAddr(to, argv, i)), ArgAddr(to, argv, i), argv[i] + [0]);
    ReachKept(m, m1, o, d, ArgAddr(to, argv, i), argv[i] + [0], to, end);
    ReachPart(m1, d, to, end, to + ARGS_SIZE + 4 * i, to + ARGS_SIZE + 4 * i + 4);
    BytesStored(m1, m2, o, d, to + ARGS_SIZE + 4 * i, Encode(ArgAddr(to, argv, i)));
    ArgIsDone(m2, d, to, argv, i);
  }

  lemma ArgIsDone(m: Mem, d: nat, to: nat, argv: seq<seq<Byte>>, k: nat)
    requires d < |m| && k < |argv| && ArgAddr(to, argv, k) < TWO32
    requires BytesAt(m, d, to + ARGS_SIZE + 4 * k, Encode(ArgAddr(to, argv, k)))
    requires BytesAt(m, d, ArgAddr(to, argv, k), argv[k] + [0])
    ensures ArgDone(m, d, to, argv, k)
  {
  }

  lemma ReachPart(m: Mem, d: nat, lo: nat, hi: nat, a: nat, b: nat)
    requires d < |m| && ReachAll(m, d, lo, hi) && lo <= a && b <= hi
    ensures ReachAll(m, d, a, b)
  {
  }

  lemma ReachWritable(m: Mem, d: nat, a: nat, n: nat)
    requires d < |m| && ReachAll(m, d, a, a + n) && a + n <= TWO32
    ensures Writable(m, d, a, n)
  {
    hide Pde;
    forall va | a <= va < a + n ensures TableMeansMapped(m, d, va) { assert Reach(m, d, va); }
  }

  /** Copy into a fully mapped range. */
  method CopyMapped(ms: Memory, to: nat, d: nat, from: seq<Byte>) returns (err: int)
    requires ms.Valid() && d < |ms.mem| && ms.owner[d] == Dir
    requires ReachAll(ms.mem, d, to, to + |from|) && to + |from| <= TWO32
    modifies ms`mem, ms`owner, ms.bitmap.bits
    ensures ms.Valid() && ms.owner == old(ms.owner) && err == 0
    ensures Stored(old(ms.mem), ms.mem, ms.owner, d, to, from)
  {
    hide Inv, BitsAgree, Pte, Stored, Writable, Pde;
    ReachWritable(ms.mem, d, to, |from|);
    ghost var n;
    err, n := MemoryCopyUvmData(ms, to, d, from);
    assert n < |from| ==> Reach(old(ms.mem), d, to + n);
    assert from[..|from|] == from;
  }

  /** `dest_argv_tb[i] = w`: a store through the physical address of the table. */
  method StoreEntry(ms: Memory, tb: nat, d: nat, ghost table: nat, i: nat, w: Word)
    requires ms.Valid() && d < |ms.mem| && ms.owner[d] == Dir
    requires Reach(ms.mem, d, table) && Reach(ms.mem, d, table + 4 * i)
    requires tb == PageOf(ms.mem, d, table / PAGE) * PAGE + table % PAGE
    requires table % PAGE + 4 * i + 4 <= PAGE
    modifies ms`mem
    ensures ms.Valid() && Stored(old(ms.mem), ms.mem, ms.owner, d, table + 4 * i, Encode(w))
  {
    hide Inv, BitsAgree, Pte, Stored, Splice, Encode;
    var at := tb + 4 * i;
    assert at / PAGE == PageOf(ms.mem, d, table / PAGE) && at % PAGE == table % PAGE + 4 * i;
    assert (table + 4 * i) / PAGE == table / PAGE && (table + 4 * i) % PAGE == at % PAGE;
    SpliceStores(ms.mem, ms.owner, ms.kdir, d, table + 4 * i, Encode(w));
    ms.mem := ms.mem[at / PAGE := Splice(ms.mem[at / PAGE], at % PAGE, Encode(w))];
  }

  /** The whole block as a program finds it at `to`. */
  ghost predicate ArgsLaidOut(m: Mem, d: nat, to: nat, argv: seq<seq<Byte>>)
    requires d < |m| && to + ARGS_SIZE < TWO32 && |argv| < TWO32
  {
    && WordAt(m, d, to + 4, |argv|)
    && WordAt(m, d, to + 8, to + ARGS_SIZE)
    && ArgsDone(m, d, to, argv, |argv|)
    && (argv != [] ==> WordAt(m, d, to + ARGS_SIZE + 4 * |argv|, 0))
  }

  /** A store outside table and strings keeps the finished arguments. */
  lemma ArgsKept(m: Mem, m': Mem, o: seq<Owner>, d: nat, to: nat, argv: seq<seq<Byte>>, at: nat, c: seq<Byte>)
    requires d < |m| == |m'| && ArgsDone(m, d, to, argv, |argv|) && Stored(m, m', o, d, at, c)
    requires at + |c| <= to + ARGS_SIZE || (at == to + ARGS_SIZE + 4 * |argv| && |c| == 4)
    ensures ArgsDone(m', d, to, argv, |argv|)
  {
    hide Reach, VirtByte, SameTables, ArgAddr, Stored, ArgDone;
    forall k | 0 <= k < |argv| ensures ArgDone(m', d, to, argv, k) {
      ArgAddrBase(to, argv, k);
      ArgKept(m, m', o, d, to, argv, k, at, c);
    }
  }

  /** The loop of `copy_args`. */
  method CopyStrings(ms: Memory, to: nat, d: nat, argv: seq<seq<Byte>>, tb: nat) returns (dest: nat)
    requires ms.Valid() && d < |ms.mem| && ms.owner[d] == Dir
    requires ReachAll(ms.mem, d, to, ArgAddr(to, argv, |argv|)) && ArgAddr(to, argv, |argv|) <= TWO32
    requires Reach(ms.mem, d, to + ARGS_SIZE)
    requires (to + ARGS_SIZE) % PAGE + 4 * (|argv| + 1) <= PAGE
    requires tb == PageOf(ms.mem, d, (to + ARGS_SIZE) / PAGE) * PAGE + (to + ARGS_SIZE) % PAGE
    modifies ms`mem, ms`owner, ms.bitmap.bits
    ensures ms.Valid() && ms.owner == old(ms.owner) && |ms.mem| == |old(ms.mem)|
    ensures dest == ArgAddr(to, argv, |argv|)
    ensures ChangedWithin(old(ms.mem), ms.mem, ms.owner, d, to, ArgAddr(to, argv, |argv|))
    ensures ReachAll(ms.mem, d, to, ArgAddr(to, argv, |argv|))
    ensures ArgsDone(ms.mem, d, to, argv, |argv|)
  {
    hide Inv, BitsAgree, Pte, Stored, Encode, ArgAddr, ArgDone, ReachAll, ChangedWithin, Reach;
    ghost var m0, end := ms.mem, ArgAddr(to, argv, |argv|);
    dest := to + ARGS_SIZE + 4 * (|argv| + 1);
    assert dest == ArgAddr(to, argv, 0) by { FirstArg(to, argv); }
    WithinRefl(m0, ms.owner, d, to, end);
    for i := 0 to |argv|
      invariant ms.Valid() && ms.owner == old(ms.owner) && |ms.mem| == |m0|
      invariant dest == ArgAddr(to, argv, i)
      invariant ChangedWithin(m0, ms.mem, ms.owner, d, to, end)
      invariant ReachAll(ms.mem, d, to, end)
      invariant ArgsDone(ms.mem, d, to, argv, i)
    {
      ghost var m1 := ms.mem;
      NextArg(to, argv, i);
      TableStays(m0, m1, ms.owner, d, to, end);
      ArgAddrBase(to, argv, i);
      ReachPart(m1, d, to, end, dest, dest + |argv[i]| + 1);
      var err := CopyMapped(ms, dest, d, argv[i] + [0]);
      ghost var m2 := ms.mem;
      ReachKept(m1, m2, ms.owner, d, dest, argv[i] + [0], to, end);
      WithinStore(m0, m1, m2, ms.owner, d, to, end, dest, argv[i] + [0]);
      TableStays(m0, m2, ms.owner, d, to, end);
      ReachIn(m2, d, to, end, to + ARGS_SIZE);
      ReachIn(m2, d, to, end, to + ARGS_SIZE + 4 * i);
      StoreEntry(ms, tb, d, to + ARGS_SIZE, i, dest);
      ReachKept(m2, ms.mem, ms.owner, d, to + ARGS_SIZE + 4 * i, Encode(dest), to, end);
      WithinStore(m0, m2, ms.mem, ms.owner, d, to, end, to + ARGS_SIZE + 4 * i, Encode(dest));
      ArgsStep(m1, m2, ms.mem, ms.owner, d, to, argv, i);
      dest := dest + (|argv[i]| + 1);
    }
  }

  lemma FirstArg(to: nat, argv: seq<seq<Byte>>)
    ensures ArgAddr(to, argv, 0) == to + ARGS_SIZE + 4 * (|argv| + 1)
  {
  }

  lemma NextArg(to: nat, argv: seq<seq<Byte>>, i: nat)
    requires i < |argv|
    ensures ArgAddr(to, argv, i + 1) == ArgAddr(to, argv, i) + |argv[i]| + 1 <= ArgAddr(to, argv, |argv|)
  {
    ArgAddrOrder(to, argv, i, |argv|);
  }

  lemma ReachIn(m: Mem, d: nat, lo: nat, hi: nat, va: nat)
    requires d < |m| && ReachAll(m, d, lo, hi) && lo <= va < hi
    ensures Reach(m, d, va)
  {
  }

  /** The table keeps its physical address. */
  lemma TableStays(m: Mem, m': Mem, o: seq<Owner>, d: nat, to: nat, end: nat)
    requires ChangedWithin(m, m', o, d, to, end) && Reach(m, d, to + ARGS_SIZE)
    ensures (to + ARGS_SIZE) / PAGE < VPAGES && d < |m'|
    ensures PageOf(m', d, (to + ARGS_SIZE) / PAGE) == PageOf(m, d, (to + ARGS_SIZE) / PAGE)
  {
    hide Pte, Pde, VirtByte;
    assert IsUser((to + ARGS_SIZE) / PAGE);
  }

  /** `copy_args`. `junk` is the return-address field, which the source leaves unset. */
  method CopyArguments(ms: Memory, to: nat, d: nat, argv: seq<seq<Byte>>, junk: Word) returns (err: int)
    requires ms.Valid() && d < |ms.mem| && ms.owner[d] == Dir
    requires ReachAll(ms.mem, d, to, ArgAddr(to, argv, |argv|)) && ArgAddr(to, argv, |argv|) <= TWO32
    requires (to + ARGS_SIZE) % PAGE + 4 * (|argv| + 1) <= PAGE
    modifies ms`mem, ms`owner, ms.bitmap.bits
    ensures ms.Valid() && ms.owner == old(ms.owner) && err == 0 && |ms.mem| == |old(ms.mem)|
    ensures ChangedWithin(old(ms.mem), ms.mem, ms.owner, d, to, ArgAddr(to, argv, |argv|))
    ensures to + ARGS_SIZE < TWO32 && |argv| < TWO32 && ArgsLaidOut(ms.mem, d, to, argv)
  {
    hide Inv, BitsAgree, Pte, Pde, Stored, Encode, ArgAddr, ReachAll, ChangedWithin, ArgsDone, BytesAt, Reach;
    ghost var m0, end := ms.mem, ArgAddr(to, argv, |argv|);
    ArgAddrBase(to, argv, |argv|);
    ReachIn(m0, d, to, end, to + ARGS_SIZE);
    TranslatedAt(m0, d, to + ARGS_SIZE);
    var tb := MemoryGetPaddr(ms, d, to + ARGS_SIZE);
    var dest := CopyStrings(ms, to, d, argv, tb);
    if |argv| != 0 {
      ghost var m1 := ms.mem;
      TableStays(m0, m1, ms.owner, d, to, end);
      ReachIn(m1, d, to, end, to + ARGS_SIZE);
      ReachIn(m1, d, to, end, to + ARGS_SIZE + 4 * |argv|);
      StoreEntry(ms, tb, d, to + ARGS_SIZE, |argv|, 0);
      NullStored(m0, m1, ms.mem, ms.owner, d, to, argv);
    }
    ghost var m3 := ms.mem;
    ReachPart(m3, d, to, end, to, to + ARGS_SIZE);
    var head := Encode(junk) + Encode(|argv|) + Encode(to + ARGS_SIZE);
    err := CopyMapped(ms, to, d, head);
    HeadStored(m0, m3, ms.mem, ms.owner, d, to, argv, junk);
  }

  lemma TranslatedAt(m: Mem, d: nat, va: nat)
    requires d < |m| && Reach(m, d, va)
    ensures va < TWO32 && IsUser(va / PAGE) && va / PAGE / 1024 < 1024 && Present(Pde(m, d, va / PAGE / 1024))
  {
  }

  lemma NullStored(m0: Mem, m1: Mem, m2: Mem, o: seq<Owner>, d: nat, to: nat, argv: seq<seq<Byte>>)
    requires d < |m1| == |m2| && ArgsDone(m1, d, to, argv, |argv|) && argv != []
    requires ReachAll(m1, d, to, ArgAddr(to, argv, |argv|))
    requires ChangedWithin(m0, m1, o, d, to, ArgAddr(to, argv, |argv|))
    requires Stored(m1, m2, o, d, to + ARGS_SIZE + 4 * |argv|, Encode(0))
    ensures ChangedWithin(m0, m2, o, d, to, ArgAddr(to, argv, |argv|))
    ensures ReachAll(m2, d, to, ArgAddr(to, argv, |argv|))
    ensures ArgsDone(m2, d, to, argv, |argv|) && WordAt(m2, d, to + ARGS_SIZE + 4 * |argv|, 0)
  {
    hide Stored, Encode, ArgAddr, ReachAll, ChangedWithin, ArgsDone, BytesAt;
    var end, at := ArgAddr(to, argv, |argv|), to + ARGS_SIZE + 4 * |argv|;
    ArgAddrBase(to, argv, |argv|);
    WithinStore(m0, m1, m2, o, d, to, end, at, Encode(0));
    ReachKept(m1, m2, o, d, at, Encode(0), to, end);
    ArgsKept(m1, m2, o, d, to, argv, at, Encode(0));
    ReachPart(m1, d, to, end, at, at + 4);
    BytesStored(m1, m2, o, d, at, Encode(0));
  }

  lemma HeadStored(m0: Mem, m1: Mem, m2: Mem, o: seq<Owner>, d: nat, to: nat, argv: seq<seq<Byte>>, junk: Word)
    requires d < |m1| == |m2| && ArgsDone(m1, d, to, argv, |argv|)
    requires to + ARGS_SIZE < TWO32 && |argv| < TWO32
    requires argv != [] ==> WordAt(m1, d, to + ARGS_SIZE + 4 * |argv|, 0)
    requires ReachAll(m1, d, to, ArgAddr(to, argv, |argv|))
    requires ChangedWithin(m0, m1, o, d, to, ArgAddr(to, argv, |argv|))
    requires Stored(m1, m2, o, d, to, Encode(junk) + Encode(|argv|) + Encode(to + ARGS_SIZE))
    ensures ChangedWithin(m0, m2, o, d, to, ArgAddr(to, argv, |argv|))
    ensures ArgsLaidOut(m2, d, to, argv)
  {
    hide Stored, Encode, ArgAddr, ReachAll, ChangedWithin, ArgsDone, BytesAt;
    var end := ArgAddr(to, argv, |argv|);
    var head := Encode(junk) + Encode(|argv|) + Encode(to + ARGS_SIZE);
    ArgAddrBase(to, argv, |argv|);
    WithinStore(m0, m1, m2, o, d, to, end, to, head);
    ArgsKept(m1, m2, o, d, to, argv, to, head);
    if argv != [] { BytesKept(m1, m2, o, d, to, head, to + ARGS_SIZE + 4 * |argv|, Encode(0)); }
    ReachPart(m1, d, to, end, to, to + ARGS_SIZE);
    BytesStored(m1, m2, o, d, to, head);
    BytesPart(m2, d, to, head, 4, 8);
    BytesPart(m2, d, to, head, 8, 12);
    assert head[4..8] == Encode(|argv|) && head[8..12] == Encode(to + ARGS_SIZE);
  }

  lemma BytesPart(m: Mem, d: nat, va: nat, b: seq<Byte>, i: nat, j: nat)
    requires d < |m| && BytesAt(m, d, va, b) && i <= j <= |b|
    ensures BytesAt(m, d, va + i, b[i..j])
  {
    hide Reach, VirtByte;
  }

  /** Reading the block back: `argc`, `argv`, the pointers, the null and the strings. */
  lemma ArgsReadBack(m: Mem, d: nat, to: nat, argv: seq<seq<Byte>>, i: nat)
    requires d < |m| && to + ARGS_SIZE < TWO32 && |argv| < TWO32 && ArgsLaidOut(m, d, to, argv) && i < |argv|
    ensures ReachAll(m, d, to + 4, to + 8) && VirtWord(m, d, to + 4) == |argv|
    ensures ReachAll(m, d, to + 8, to + 12) && VirtWord(m, d, to + 8) == to + ARGS_SIZE
    ensures ReachAll(m, d, to + ARGS_SIZE + 4 * i, to + ARGS_SIZE + 4 * i + 4)
    ensures var p := VirtWord(m, d, to + ARGS_SIZE + 4 * i);
      BytesAt(m, d, p, argv[i] + [0])
    ensures ReachAll(m, d, to + ARGS_SIZE + 4 * |argv|, to + ARGS_SIZE + 4 * |argv| + 4)
         && VirtWord(m, d, to + ARGS_SIZE + 4 * |argv|) == 0
  {
    hide VirtWord, BytesAt, ReachAll, Encode, ArgAddr;
    WordRead(m, d, to + 4, |argv|);
    WordRead(m, d, to + 8, to + ARGS_SIZE);
    assert ArgDone(m, d, to, argv, i);
    WordRead(m, d, to + ARGS_SIZE + 4 * i, ArgAddr(to, argv, i));
    WordRead(m, d, to + ARGS_SIZE + 4 * |argv|, 0);
  }
}
