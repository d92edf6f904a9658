/** The system file table and the tasks' descriptor tables (fs.c, file.c, task.c). Each
    system call is one step. */
module FileRef {
  import opened Bags

  const NFILES: nat := 2048     // FILE_TABLE_SIZE
  const NFDS: nat := 128        // TASK_OFILE_NR
  const NONE: int := -1         // an empty descriptor slot

  /** `refs` holds the ref fields of the file table and `slots` the descriptor table of each
      task. `opens` and `closes` count the file system's opens and closes of each entry. */
  datatype Tables = Tables(refs: seq<nat>, slots: seq<seq<int>>, opens: multiset<int>, closes: multiset<int>)

  // ----- counting slots -----

  /** All descriptor slots of all tasks, as a bag. */
  function AllSlots(rows: seq<seq<int>>): multiset<int> {
    if rows == [] then multiset{} else AllSlots(rows[..|rows| - 1]) + multiset(rows[|rows| - 1])
  }

  lemma {:induction false} RowUpdate(rows: seq<seq<int>>, t: nat, row: seq<int>)
    requires t < |rows|
    ensures AllSlots(rows[t := row]) + multiset(rows[t]) == AllSlots(rows) + multiset(row)
  {
    hide AllSlots;
    var n := |rows| - 1;
    AllSlotsLast(rows);
    AllSlotsLast(rows[t := row]);
    if t < n {
      RowUpdate(rows[..n], t, row);
      assert rows[t := row][..n] == rows[..n][t := row];
      assert rows[t := row][n] == rows[n] && rows[..n][t] == rows[t];
      AddBoth(AllSlots(rows[..n][t := row]), multiset(rows[t]), AllSlots(rows[..n]), multiset(row), multiset(rows[n]));
    } else {
      assert rows[t := row][..n] == rows[..n];
    }
  }

  lemma AllSlotsLast(rows: seq<seq<int>>)
    requires rows != []
    ensures AllSlots(rows) == AllSlots(rows[..|rows| - 1]) + multiset(rows[|rows| - 1])
  {
  }

  function SetSlot(rows: seq<seq<int>>, t: nat, fd: nat, f: int): (r: seq<seq<int>>)
    requires t < |rows| && fd < |rows[t]|
    ensures |r| == |rows| && |r[t]| == |rows[t]|
  {
    rows[t := rows[t][fd := f]]
  }

  lemma InRow(row: seq<int>, fd: nat, f: int)
    requires fd < |row|
    ensures multiset{row[fd]} + multiset(row[fd := f]) == multiset{f} + multiset(row)
    ensures multiset(row)[row[fd]] >= 1
  {
    assert row == row[..fd] + [row[fd]] + row[fd + 1..];
    assert row[fd := f] == row[..fd] + [f] + row[fd + 1..];
  }

  lemma SlotUpdate(rows: seq<seq<int>>, t: nat, fd: nat, f: int)
    requires t < |rows| && fd < |rows[t]|
    ensures AllSlots(SetSlot(rows, t, fd, f)) + multiset{rows[t][fd]} == AllSlots(rows) + multiset{f}
    ensures AllSlots(rows)[rows[t][fd]] >= 1
  {
    hide AllSlots;
    var row := rows[t];
    RowUpdate(rows, t, row[fd := f]);
    InRow(row, fd, f);
    Exchange(AllSlots(SetSlot(rows, t, fd, f)), AllSlots(rows), multiset(row), multiset(row[fd := f]),
             multiset{row[fd]}, multiset{f});
    RowWithin(rows, t, row[fd]);
  }

  lemma {:induction false} RowWithin(rows: seq<seq<int>>, t: nat, f: int)
    requires t < |rows|
    ensures AllSlots(rows)[f] >= multiset(rows[t])[f]
  {
    if t < |rows| - 1 { RowWithin(rows[..|rows| - 1], t, f); }
  }

  // ----- the invariant -----

  ghost predicate Shape(x: Tables) {
    && |x.refs| == NFILES
    && forall t :: 0 <= t < |x.slots| ==>
         |x.slots[t]| == NFDS && forall i :: 0 <= i < NFDS ==> NONE <= x.slots[t][i] < NFILES
  }

  /** Every entry's ref is the number of slots that point to it, and its file is open in the
      file system exactly when there are any. */
  ghost predicate Ok(x: Tables) {
    && Shape(x)
    && (forall f :: 0 <= f < NFILES ==> x.refs[f] == AllSlots(x.slots)[f])
    && (forall f :: 0 <= f < NFILES ==> x.opens[f] == x.closes[f] + (if x.refs[f] > 0 then 1 else 0))
  }

  // ----- the operations -----

  /** First index holding `v`, or -1. */
  function Find(s: seq<int>, v: int): (i: int)
    ensures -1 <= i < |s|
  {
    FindFrom(s, v, 0)
  }

  function FindFrom(s: seq<int>, v: int, k: nat): (i: int)
    requires k <= |s|
    ensures i == -1 || k <= i < |s|
    decreases |s| - k
  {
    if k == |s| then -1 else if s[k] == v then k else FindFrom(s, v, k + 1)
  }

  lemma {:induction false} FindIsFirst(s: seq<int>, v: int, k: nat)
    requires k <= |s|
    ensures var i := FindFrom(s, v, k);
      if i == -1 then forall j :: k <= j < |s| ==> s[j] != v else s[i] == v && forall j :: k <= j < i ==> s[j] != v
    decreases |s| - k
  {
    if k < |s| { FindIsFirst(s, v, k + 1); }
  }

  /** `sys_open`; `ok` says whether the file system's open succeeds. Nothing changes when
      there is no free entry, no free slot, or the open fails. */
  function Open(x: Tables, t: nat, ok: bool): (r: (Tables, int))
    requires t < |x.slots|
  {
    var f, fd := Find(x.refs, 0), Find(x.slots[t], NONE);
    if f == -1 || fd == -1 || !ok then (x, -1)
    else (x.(refs := x.refs[f := 1], slots := SetSlot(x.slots, t, fd, f), opens := x.opens + multiset{f}), fd)
  }

  function FileAt(x: Tables, t: nat, fd: int): int
    requires t < |x.slots|
  {
    if 0 <= fd < |x.slots[t]| && 0 <= x.slots[t][fd] < |x.refs| then x.slots[t][fd] else NONE
  }

  function Close(x: Tables, t: nat, fd: int): Tables
    requires t < |x.slots|
  {
    var f := FileAt(x, t, fd);
    if f == NONE then x
    else x.(refs := x.refs[f := if x.refs[f] == 0 then 0 else x.refs[f] - 1],
            slots := SetSlot(x.slots, t, fd, NONE),
            closes := if x.refs[f] == 1 then x.closes + multiset{f} else x.closes)
  }

  function Dup(x: Tables, t: nat, fd: int): (r: (Tables, int))
    requires t < |x.slots|
  {
    var f, to := FileAt(x, t, fd), Find(x.slots[t], NONE);
    if f == NONE || to == -1 then (x, -1)
    else (x.(refs := x.refs[f := x.refs[f] + 1], slots := SetSlot(x.slots, t, to, f)), to)
  }

  /** One turn of the loop of `copy_opened_files`. */
  function CopySlot(x: Tables, p: nat, c: nat, fd: nat): Tables
    requires p < |x.slots| && c < |x.slots| && fd < |x.slots[c]|
  {
    var f := FileAt(x, p, fd);
    if f == NONE then x
    else x.(refs := x.refs[f := x.refs[f] + 1], slots := SetSlot(x.slots, c, fd, f))
  }

  /** The slots of the parent before `n` copied into the child's empty table. */
  function Fork(x: Tables, p: nat, c: nat, n: nat): (y: Tables)
    requires p < |x.slots| && c < |x.slots| && n <= |x.slots[c]|
    ensures |y.slots| == |x.slots| && |y.slots[c]| == |x.slots[c]|
  {
    if n == 0 then x else CopySlot(Fork(x, p, c, n - 1), p, c, n - 1)
  }

  /** `sys_exit` up to its descriptor `n`. */
  function CloseUpTo(x: Tables, t: nat, n: nat): (y: Tables)
    requires t < |x.slots|
    ensures |y.slots| == |x.slots|
  {
    if n == 0 then x else Close(CloseUpTo(x, t, n - 1), t, n - 1)
  }

  // ----- what each answers and changes -----

  /** Index of the first `v`. */
  ghost predicate FirstAt(s: seq<int>, v: int, i: int) {
    0 <= i < |s| && s[i] == v && forall j :: 0 <= j < i ==> s[j] != v
  }

  lemma FirstIsFound(s: seq<int>, v: int, i: int)
    ensures FirstAt(s, v, i) <==> v in s && i == Find(s, v)
    ensures v !in s <==> Find(s, v) == -1
  {
    FindIsFirst(s, v, 0);
  }

  ghost predicate IsOpen(x: Tables, t: nat, fd: int)
    requires t < |x.slots|
  {
    0 <= fd < |x.slots[t]| && x.slots[t][fd] != NONE
  }

  /** In `y` descriptor `fd` of task `t` holds `f`, and entry `g` has ref `n`; all other slots and
      refs are those of `x`. */
  ghost predicate Changed(x: Tables, y: Tables, t: nat, fd: int, f: int, g: int, n: int)
    requires t < |x.slots|
  {
    && |y.slots| == |x.slots| && |y.refs| == |x.refs| && 0 <= fd < |x.slots[t]| && 0 <= g < |x.refs|
    && (forall u :: 0 <= u < |x.slots| ==>
          |y.slots[u]| == |x.slots[u]|
          && forall i :: 0 <= i < |x.slots[u]| ==> y.slots[u][i] == if u == t && i == fd then f else x.slots[u][i])
    && forall h :: 0 <= h < |x.refs| ==> y.refs[h] == if h == g then n else x.refs[h]
  }

  lemma ChangedTo(x: Tables, y: Tables, t: nat, fd: int, f: int, g: int, n: int)
    requires t < |x.slots| && 0 <= fd < |x.slots[t]| && 0 <= g < |x.refs| && n >= 0
    ensures Changed(x, y, t, fd, f, g, n) <==> y.slots == SetSlot(x.slots, t, fd, f) && y.refs == x.refs[g := n]
  {
    if Changed(x, y, t, fd, f, g, n) {
      forall u | 0 <= u < |x.slots| ensures y.slots[u] == SetSlot(x.slots, t, fd, f)[u] {
        assert |y.slots[u]| == |x.slots[u]|;
      }
      assert y.slots == SetSlot(x.slots, t, fd, f);
    }
  }

  /** An open succeeds exactly when the file system's does and there are an entry with ref 0 and
      an empty slot. The first slot then holds the first entry, with one ref and one more open. */
  ghost predicate OpenDone(x: Tables, t: nat, ok: bool, y: Tables, fd: int)
    requires t < |x.slots|
  {
    if ok && 0 in x.refs && NONE in x.slots[t] then
      exists f ::
        && FirstAt(x.slots[t], NONE, fd) && FirstAt(x.refs, 0, f) && Changed(x, y, t, fd, f, f, 1)
        && y.opens == x.opens + multiset{f} && y.closes == x.closes
    else
      fd == -1 && y == x
  }

  lemma OpenIff(x: Tables, t: nat, ok: bool, y: Tables, fd: int)
    requires t < |x.slots|
    ensures OpenDone(x, t, ok, y, fd) <==> y == Open(x, t, ok).0 && fd == Open(x, t, ok).1
  {
    hide Find, Changed;
    var f, to := Find(x.refs, 0), Find(x.slots[t], NONE);
    FirstIsFound(x.refs, 0, f);
    FirstIsFound(x.slots[t], NONE, to);
    FirstIsFound(x.slots[t], NONE, fd);
    forall g ensures FirstAt(x.refs, 0, g) <==> 0 in x.refs && g == f { FirstIsFound(x.refs, 0, g); }
    if f != -1 && to != -1 { ChangedTo(x, y, t, to, f, f, 1); }
  }

  /** A dup succeeds exactly for an open descriptor and with an empty slot. The first such slot
      then holds the same file, which has one ref more. */
  ghost predicate DupDone(x: Tables, t: nat, fd: int, y: Tables, to: int)
    requires t < |x.slots|
  {
    if IsOpen(x, t, fd) && NONE in x.slots[t] then
      var f := x.slots[t][fd];
      && FirstAt(x.slots[t], NONE, to) && 0 <= f < |x.refs| && Changed(x, y, t, to, f, f, x.refs[f] + 1)
      && y.opens == x.opens && y.closes == x.closes
    else
      to == -1 && y == x
  }

  lemma DupIff(x: Tables, t: nat, fd: int, y: Tables, to: int)
    requires Ok(x) && t < |x.slots|
    ensures DupDone(x, t, fd, y, to) <==> y == Dup(x, t, fd).0 && to == Dup(x, t, fd).1
  {
    hide Find, Changed, AllSlots;
    var first := Find(x.slots[t], NONE);
    FirstIsFound(x.slots[t], NONE, first);
    FirstIsFound(x.slots[t], NONE, to);
    if IsOpen(x, t, fd) && first != -1 {
      var f := x.slots[t][fd];
      ChangedTo(x, y, t, first, f, f, x.refs[f] + 1);
    }
  }

  /** A close of an open descriptor empties its slot and takes one ref off its file, which the
      file system closes when that was the last. */
  ghost predicate CloseDone(x: Tables, t: nat, fd: int, y: Tables)
    requires t < |x.slots|
  {
    if IsOpen(x, t, fd) then
      var f := x.slots[t][fd];
      && 0 <= f < |x.refs| && x.refs[f] > 0 && Changed(x, y, t, fd, NONE, f, x.refs[f] - 1) && y.opens == x.opens
      && y.closes == if x.refs[f] == 1 then x.closes + multiset{f} else x.closes
    else
      y == x
  }

  lemma CloseIff(x: Tables, t: nat, fd: int, y: Tables)
    requires Ok(x) && t < |x.slots|
    ensures CloseDone(x, t, fd, y) <==> y == Close(x, t, fd)
  {
    hide Changed, AllSlots;
    if IsOpen(x, t, fd) {
      var f := x.slots[t][fd];
      CloseOk(x, t, fd);
      ChangedTo(x, y, t, fd, NONE, f, x.refs[f] - 1);
    }
  }

  // ----- what each keeps -----

  lemma OpenOk(x: Tables, t: nat, ok: bool)
    requires Ok(x) && t < |x.slots|
    ensures Ok(Open(x, t, ok).0)
  {
    hide AllSlots;
    var f, fd := Find(x.refs, 0), Find(x.slots[t], NONE);
    FindIsFirst(x.refs, 0, 0);
    FindIsFirst(x.slots[t], NONE, 0);
    if f != -1 && fd != -1 && ok { Recount(x, t, fd, f, Open(x, t, ok).0.slots); }
  }

  /** The effect of one slot update on every entry's number of slots. */
  lemma Recount(x: Tables, t: nat, fd: nat, f: int, rows: seq<seq<int>>)
    requires t < |x.slots| && fd < |x.slots[t]| && rows == SetSlot(x.slots, t, fd, f)
    ensures var was := x.slots[t][fd];
      forall g :: AllSlots(rows)[g] + (if g == was then 1 else 0) == AllSlots(x.slots)[g] + (if g == f then 1 else 0)
    ensures AllSlots(x.slots)[x.slots[t][fd]] >= 1
  {
    hide AllSlots;
    SlotUpdate(x.slots, t, fd, f);
    var was := x.slots[t][fd];
    forall g
      ensures AllSlots(rows)[g] + (if g == was then 1 else 0) == AllSlots(x.slots)[g] + (if g == f then 1 else 0)
    {
      assert (AllSlots(rows) + multiset{was})[g] == (AllSlots(x.slots) + multiset{f})[g];
    }
  }

  lemma CloseOk(x: Tables, t: nat, fd: int)
    requires Ok(x) && t < |x.slots|
    ensures Ok(Close(x, t, fd))
    ensures FileAt(x, t, fd) != NONE ==> x.refs[FileAt(x, t, fd)] > 0
  {
    hide AllSlots;
    var f := FileAt(x, t, fd);
    if f != NONE { Recount(x, t, fd, NONE, Close(x, t, fd).slots); }
  }

  lemma DupOk(x: Tables, t: nat, fd: int)
    requires Ok(x) && t < |x.slots|
    ensures Ok(Dup(x, t, fd).0)
  {
    hide AllSlots;
    var f, to := FileAt(x, t, fd), Find(x.slots[t], NONE);
    FindIsFirst(x.slots[t], NONE, 0);
    if f != NONE && to != -1 {
      Recount(x, t, to, f, Dup(x, t, fd).0.slots);
      Recount(x, t, fd, f, SetSlot(x.slots, t, fd, f));
    }
  }

  lemma CopySlotOk(x: Tables, p: nat, c: nat, fd: nat)
    requires Ok(x) && p < |x.slots| && c < |x.slots| && fd < NFDS && x.slots[c][fd] == NONE
    ensures Ok(CopySlot(x, p, c, fd))
  {
    hide AllSlots;
    var f := FileAt(x, p, fd);
    if f != NONE {
      Recount(x, c, fd, f, CopySlot(x, p, c, fd).slots);
      Recount(x, p, fd, f, SetSlot(x.slots, p, fd, f));
    }
  }

  /** A fork gives the child the parent's table, and keeps the counts. */
  lemma {:induction false} ForkOk(x: Tables, p: nat, c: nat, n: nat)
    requires Ok(x) && p < |x.slots| && c < |x.slots| && p != c && n <= NFDS
    requires forall i :: 0 <= i < NFDS ==> x.slots[c][i] == NONE
    ensures |x.slots[p]| == NFDS
    ensures var y := Fork(x, p, c, n);
      && |y.slots[c]| == NFDS && Ok(y) && y.opens == x.opens && y.closes == x.closes
      && |y.slots| == |x.slots| && (forall u :: 0 <= u < |x.slots| && u != c ==> y.slots[u] == x.slots[u])
      && (forall i :: 0 <= i < NFDS ==> y.slots[c][i] == if i < n then x.slots[p][i] else NONE)
  {
    hide AllSlots, Ok, CopySlot;
    RowSize(x, c);
    RowSize(x, p);
    if n > 0 {
      ForkOk(x, p, c, n - 1);
      CopySlotOk(Fork(x, p, c, n - 1), p, c, n - 1);
      CopySlotSlots(Fork(x, p, c, n - 1), p, c, n - 1);
    }
  }

  lemma CopySlotSlots(x: Tables, p: nat, c: nat, fd: nat)
    requires Ok(x) && p < |x.slots| && c < |x.slots| && p != c && fd < NFDS
    requires |x.slots[c]| == NFDS && x.slots[c][fd] == NONE
    ensures |x.slots[p]| == NFDS
    ensures var y := CopySlot(x, p, c, fd);
      && y.opens == x.opens && y.closes == x.closes && |y.slots| == |x.slots|
      && (forall u :: 0 <= u < |x.slots| && u != c ==> y.slots[u] == x.slots[u])
      && y.slots[c] == x.slots[c][fd := x.slots[p][fd]]
  {
    hide AllSlots;
    assert x.slots[c][fd := NONE] == x.slots[c];
  }

  lemma CloseSlot(x: Tables, t: nat, fd: nat)
    requires Ok(x) && t < |x.slots| && fd < NFDS
    ensures var y := Close(x, t, fd);
      && |y.slots| == |x.slots| && y.opens == x.opens && |x.slots[t]| == NFDS
      && (forall u :: 0 <= u < |x.slots| && u != t ==> y.slots[u] == x.slots[u])
      && y.slots[t] == x.slots[t][fd := NONE]
  {
    hide AllSlots;
  }

  lemma RowSize(x: Tables, t: nat)
    requires Ok(x) && t < |x.slots|
    ensures |x.slots[t]| == NFDS
  {
  }

  /** An exit empties the task's table and nobody else's, and keeps the counts. */
  lemma {:induction false} CloseUpToOk(x: Tables, t: nat, n: nat)
    requires Ok(x) && t < |x.slots| && n <= NFDS
    ensures |x.slots[t]| == NFDS
    ensures var y := CloseUpTo(x, t, n);
      && |y.slots[t]| == NFDS && Ok(y) && |y.slots| == |x.slots| && y.opens == x.opens
      && (forall u :: 0 <= u < |x.slots| && u != t ==> y.slots[u] == x.slots[u])
      && (forall i :: 0 <= i < NFDS ==> y.slots[t][i] == if i < n then NONE else x.slots[t][i])
  {
    hide AllSlots, Ok, Close;
    RowSize(x, t);
    if n > 0 {
      CloseUpToOk(x, t, n - 1);
      CloseSlot(CloseUpTo(x, t, n - 1), t, n - 1);
      CloseOk(CloseUpTo(x, t, n - 1), t, n - 1);
    }
  }

  // ----- every run -----

  datatype Call =
    | COpen(t: nat, ok: bool)
    | CClose(t: nat, fd: int)
    | CDup(t: nat, fd: int)
    | CFork(t: nat, child: nat)
    | CExit(t: nat)

  ghost predicate Allowed(x: Tables, c: Call) {
    && c.t < |x.slots|
    && (c.CFork? ==> c.child < |x.slots| && c.child != c.t && |x.slots[c.child]| == NFDS
                     && forall i :: 0 <= i < NFDS ==> x.slots[c.child][i] == NONE)
  }

  function Do(x: Tables, c: Call): Tables
    requires c.t < |x.slots| && (c.CFork? ==> c.child < |x.slots| && |x.slots[c.child]| == NFDS)
  {
    match c
    case COpen(t, ok) => Open(x, t, ok).0
    case CClose(t, fd) => Close(x, t, fd)
    case CDup(t, fd) => Dup(x, t, fd).0
    case CFork(t, child) => Fork(x, t, child, NFDS)
    case CExit(t) => CloseUpTo(x, t, NFDS)
  }

  lemma DoOk(x: Tables, c: Call)
    requires Ok(x) && Allowed(x, c)
    ensures Ok(Do(x, c))
  {
    hide Ok, Open, Close, Dup;
    match c
    case COpen(t, ok) => OpenOk(x, t, ok);
    case CClose(t, fd) => CloseOk(x, t, fd);
    case CDup(t, fd) => DupOk(x, t, fd);
    case CFork(t, child) => ForkOk(x, t, child, NFDS);
    case CExit(t) => CloseUpToOk(x, t, NFDS);
  }

  ghost predicate IsRun(xs: seq<Tables>, cs: seq<Call>) {
    && |xs| == |cs| + 1
    && forall i :: 0 <= i < |cs| ==> Allowed(xs[i], cs[i]) && xs[i + 1] == Do(xs[i], cs[i])
  }

  /** Through every sequence of calls an entry's ref is the number of descriptor slots of
      all tasks that point to it, and its file system opens exceed its closes by one while
      there are any and not at all otherwise. */
  lemma {:induction false} RefsCountSlots(xs: seq<Tables>, cs: seq<Call>, i: nat, f: nat)
    requires IsRun(xs, cs) && Ok(xs[0]) && i <= |cs| && f < NFILES
    ensures Ok(xs[i])
    ensures xs[i].refs[f] == AllSlots(xs[i].slots)[f]
    ensures xs[i].opens[f] == xs[i].closes[f] + (if AllSlots(xs[i].slots)[f] > 0 then 1 else 0)
  {
    hide AllSlots, Do;
    if i > 0 {
      RefsCountSlots(xs, cs, i - 1, f);
      DoOk(xs[i - 1], cs[i - 1]);
    }
  }

  /** The file system's close runs exactly when the last slot of the file goes. */
  lemma ClosedWithLastSlot(x: Tables, t: nat, fd: int)
    requires Ok(x) && t < |x.slots|
    ensures var f := FileAt(x, t, fd);
      Close(x, t, fd).closes == if f != NONE && AllSlots(x.slots)[f] == 1 then x.closes + multiset{f} else x.closes
    ensures var f := FileAt(x, t, fd);
      f != NONE ==> AllSlots(Close(x, t, fd).slots)[f] + 1 == AllSlots(x.slots)[f]
  {
    hide AllSlots;
    var f := FileAt(x, t, fd);
    if f != NONE { Recount(x, t, fd, NONE, Close(x, t, fd).slots); }
  }

  /** A close right after a dup takes back what the dup did. */
  lemma CloseUndoesDup(x: Tables, t: nat, fd: int)
    requires Ok(x) && t < |x.slots| && Dup(x, t, fd).1 >= 0
    ensures Close(Dup(x, t, fd).0, t, Dup(x, t, fd).1) == x
  {
    hide AllSlots;
    var f, to := FileAt(x, t, fd), Find(x.slots[t], NONE);
    FindIsFirst(x.slots[t], NONE, 0);
    Recount(x, t, fd, f, SetSlot(x.slots, t, fd, f));
    assert x.slots[t][to := f][to := NONE] == x.slots[t];
    assert Close(Dup(x, t, fd).0, t, to).slots == x.slots;
    assert Close(Dup(x, t, fd).0, t, to).refs == x.refs;
  }

  // ----- the code -----

  class Files {
    var refs: seq<nat>
    var slots: seq<seq<int>>
    var opens: multiset<int>
    var closes: multiset<int>

    function Snap(): Tables
      reads this
    {
      Tables(refs, slots, opens, closes)
    }

    /** `file_table_init`, and `tasks` tasks with empty tables. */
    constructor (tasks: nat)
      ensures Ok(Snap()) && |slots| == tasks
      ensures forall t :: 0 <= t < tasks ==> slots[t] == seq(NFDS, i => NONE)
    {
      refs := seq(NFILES, f => 0);
      slots := seq(tasks, t => seq(NFDS, i => NONE));
      opens, closes := multiset{}, multiset{};
      new;
      NoSlots(slots);
    }

    method FileAlloc() returns (f: int)
      requires |refs| == NFILES
      modifies this`refs
      ensures f == Find(old(refs), 0) && (if 0 in old(refs) then FirstAt(old(refs), 0, f) else f == -1)
      ensures refs == if f == -1 then old(refs) else old(refs)[f := 1]
    {
      FirstIsFound(refs, 0, Find(refs, 0));
      var i := 0;
      while i < NFILES
        invariant 0 <= i <= NFILES && FindFrom(refs, 0, i) == Find(refs, 0) && refs == old(refs)
      {
        if refs[i] == 0 {
          refs := refs[i := 1];
          return i;
        }
        i := i + 1;
      }
      return -1;
    }

    method FileFree(f: nat)
      requires f < |refs|
      modifies this`refs
      ensures refs == old(refs)[f := if old(refs)[f] == 0 then 0 else old(refs)[f] - 1]
    {
      if refs[f] != 0 { refs := refs[f := refs[f] - 1]; }
    }

    method FileIncRef(f: nat)
      requires f < |refs|
      modifies this`refs
      ensures refs == old(refs)[f := old(refs)[f] + 1]
    {
      refs := refs[f := refs[f] + 1];
    }

    method TaskAllocFd(t: nat, f: int) returns (fd: int)
      requires t < |slots| && |slots[t]| == NFDS
      modifies this`slots
      ensures fd == Find(old(slots)[t], NONE)
      ensures if NONE in old(slots)[t] then FirstAt(old(slots)[t], NONE, fd) else fd == -1
      ensures slots == if fd == -1 then old(slots) else SetSlot(old(slots), t, fd, f)
    {
      FirstIsFound(slots[t], NONE, Find(slots[t], NONE));
      var i := 0;
      while i < NFDS
        invariant 0 <= i <= NFDS && FindFrom(slots[t], NONE, i) == Find(slots[t], NONE) && slots == old(slots)
      {
        if slots[t][i] == NONE {
          slots := SetSlot(slots, t, i, f);
          return i;
        }
        i := i + 1;
      }
      return -1;
    }

    method TaskRemoveFd(t: nat, fd: int)
      requires t < |slots| && |slots[t]| == NFDS
      modifies this`slots
      ensures slots == if 0 <= fd < NFDS then SetSlot(old(slots), t, fd, NONE) else old(slots)
    {
      if 0 <= fd < NFDS { slots := SetSlot(slots, t, fd, NONE); }
    }

    method SysOpen(t: nat, ok: bool) returns (fd: int)
      requires Ok(Snap()) && t < |slots|
      modifies this
      ensures Ok(Snap()) && (Snap(), fd) == Open(old(Snap()), t, ok)
      ensures OpenDone(old(Snap()), t, ok, Snap(), fd)
    {
      hide AllSlots, OpenDone, FirstAt;
      ghost var x := Snap();
      OpenOk(x, t, ok);
      OpenIff(x, t, ok, Open(x, t, ok).0, Open(x, t, ok).1);
      FindIsFirst(refs, 0, 0);
      FindIsFirst(slots[t], NONE, 0);
      var f := FileAlloc();
      if f == -1 { return -1; }
      fd := TaskAllocFd(t, f);
      if fd < 0 || !ok {
        FileFree(f);
        assert refs == x.refs;
        if fd >= 0 { TaskRemoveFd(t, fd); }
        assert slots == x.slots by { if fd >= 0 { assert x.slots[t][fd := f][fd := NONE] == x.slots[t]; } }
        return -1;
      }
      opens := opens + multiset{f};
    }

    method SysClose(t: nat, fd: int) returns (err: int)
      requires Ok(Snap()) && t < |slots|
      modifies this
      ensures Ok(Snap()) && Snap() == Close(old(Snap()), t, fd)
      ensures CloseDone(old(Snap()), t, fd, Snap()) && err == if IsOpen(old(Snap()), t, fd) then 0 else -1
    {
      hide AllSlots, CloseDone;
      ghost var x := Snap();
      CloseOk(x, t, fd);
      CloseIff(x, t, fd, Close(x, t, fd));
      if fd < 0 && fd >= NFDS { return -1; }
      var f := if 0 <= fd < NFDS then slots[t][fd] else NONE;
      if f == NONE { return -1; }
      var last := refs[f] == 1;
      refs := refs[f := refs[f] - 1];
      if last {
        closes := closes + multiset{f};
        FileFree(f);
      }
      TaskRemoveFd(t, fd);
      return 0;
    }

    method SysDup(t: nat, fd: int) returns (to: int)
      requires Ok(Snap()) && t < |slots|
      modifies this
      ensures Ok(Snap()) && (Snap(), to) == Dup(old(Snap()), t, fd)
      ensures DupDone(old(Snap()), t, fd, Snap(), to)
    {
      hide AllSlots, DupDone, FirstAt;
      DupOk(Snap(), t, fd);
      DupIff(Snap(), t, fd, Dup(Snap(), t, fd).0, Dup(Snap(), t, fd).1);
      if fd < 0 && fd >= NFDS { return -1; }
      var f := if 0 <= fd < NFDS then slots[t][fd] else NONE;
      if f == NONE { return -1; }
      to := TaskAllocFd(t, f);
      if to >= 0 {
        FileIncRef(f);
        return to;
      }
      return -1;
    }

    /** The copying of descriptors in `sys_fork`. */
    method CopyOpenedFiles(p: nat, c: nat)
      requires Ok(Snap()) && p < |slots| && c < |slots| && p != c
      requires forall i :: 0 <= i < NFDS ==> slots[c][i] == NONE
      modifies this
      ensures Ok(Snap()) && Snap() == Fork(old(Snap()), p, c, NFDS)
      ensures slots == old(slots)[c := old(slots)[p]]
    {
      hide AllSlots;
      ghost var x := Snap();
      var i := 0;
      while i < NFDS
        invariant 0 <= i <= NFDS && Snap() == Fork(x, p, c, i)
      {
        ForkOk(x, p, c, i);
        var f := slots[p][i];
        if f != NONE {
          FileIncRef(f);
          slots := SetSlot(slots, c, i, f);
        }
        i := i + 1;
      }
      ForkOk(x, p, c, NFDS);
      assert slots[c] == x.slots[p];
    }

    /** The closing loop of `sys_exit`. */
    method ExitClose(t: nat)
      requires Ok(Snap()) && t < |slots|
      modifies this
      ensures Ok(Snap()) && Snap() == CloseUpTo(old(Snap()), t, NFDS)
      ensures slots == old(slots)[t := seq(NFDS, i => NONE)]
    {
      hide AllSlots, SetSlot, CloseUpTo;
      ghost var x := Snap();
      CloseNone(x, t);
      var fd := 0;
      while fd < NFDS
        invariant 0 <= fd <= NFDS && |slots| == |x.slots| && Ok(Snap()) && Snap() == CloseUpTo(x, t, fd)
      {
        CloseNext(x, t, fd);
        if slots[t][fd] != NONE {
          SetTwice(slots, t, fd, NONE);
          var err := SysClose(t, fd);
          slots := SetSlot(slots, t, fd, NONE);
        }
        fd := fd + 1;
      }
      CloseUpToOk(x, t, NFDS);
      assert slots[t] == seq(NFDS, i => NONE);
    }
  }

  lemma CloseNone(x: Tables, t: nat)
    requires t < |x.slots|
    ensures CloseUpTo(x, t, 0) == x
  {
  }

  lemma CloseNext(x: Tables, t: nat, n: nat)
    requires t < |x.slots|
    ensures CloseUpTo(x, t, n + 1) == Close(CloseUpTo(x, t, n), t, n)
  {
  }

  lemma SetTwice(rows: seq<seq<int>>, t: nat, fd: nat, f: int)
    requires t < |rows| && fd < |rows[t]|
    ensures SetSlot(SetSlot(rows, t, fd, f), t, fd, f) == SetSlot(rows, t, fd, f)
  {
    assert rows[t][fd := f][fd := f] == rows[t][fd := f];
  }

  lemma {:induction false} NoSlots(rows: seq<seq<int>>)
    requires forall t, i :: 0 <= t < |rows| && 0 <= i < |rows[t]| ==> rows[t][i] == NONE
    ensures forall f :: f != NONE ==> AllSlots(rows)[f] == 0
  {
    if rows != [] { NoSlots(rows[..|rows| - 1]); }
  }
}
