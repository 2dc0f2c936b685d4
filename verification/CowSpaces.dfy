/**
 Directories and what fork and exit do to whole address spaces.

 Directories, like tables, are named by numbers that stand for their addresses;
 a kernel table is shared by identity, every other table has one place.
 */
module CowSpaces {
  import opened Values
  import opened Cow
  import opened CowInvariant
  import opened CowTables

  /** The address of `kernel_directory`. */
  const KERNEL: nat := 0

  /** Table index to table address; a missing index is a NULL table. */
  type Directory = map<nat, nat>

  datatype System = System(machine: Machine, dirs: map<nat, Directory>)

  /** The comparison mmu_clone_directory and mmu_destroy_directory make to tell kernel tables. */
  predicate IsKernel(kernelDir: Directory, dir: Directory, i: nat)
    requires i in dir
  {
    i in kernelDir && kernelDir[i] == dir[i]
  }

  predicate TablesIn(dir: Directory, tables: set<nat>)
  {
    forall i <- dir :: dir[i] in tables
  }

  predicate WellFormedSystem(s: System)
  {
    WellFormed(s.machine) && KERNEL in s.dirs && forall d <- s.dirs :: TablesIn(s.dirs[d], s.machine.tables.Keys)
  }

  // ---- Fork ----

  datatype Forking = Forking(machine: Machine, dir: Directory)

  /** The first `n` rounds of the loop of mmu_clone_directory with CLONE_COW; a new table goes to `base + i`. */
  function CloneTables(m: Machine, kernelDir: Directory, src: Directory, base: nat, n: nat): (r: Forking)
    requires WellFormed(m) && TablesIn(src, m.tables.Keys)
    ensures WellFormed(r.machine) && m.tables.Keys <= r.machine.tables.Keys
  {
    if n == 0 then Forking(m, map[])
    else CloneRound(CloneTables(m, kernelDir, src, base, n - 1), kernelDir, src, base, n - 1)
  }

  function CloneRound(f: Forking, kernelDir: Directory, src: Directory, base: nat, i: nat): (r: Forking)
    requires WellFormed(f.machine) && TablesIn(src, f.machine.tables.Keys)
    ensures WellFormed(r.machine) && f.machine.tables.Keys <= r.machine.tables.Keys
  {
    if i !in src then f
    else if IsKernel(kernelDir, src, i) then Forking(f.machine, Enter(f.dir, i, src[i]))
    else Forking(CloneTable(f.machine, src[i], base + i), Enter(f.dir, i, base + i))
  }

  function Enter(dir: Directory, i: nat, t: nat): Directory
  {
    dir[i := t]
  }

  /** mmu_clone_directory with CLONE_COW, as fork calls it. */
  function Fork(s: System, d: nat, child: nat, base: nat): (r: System)
    requires WellFormedSystem(s) && d in s.dirs
  {
    var f := CloneTables(s.machine, s.dirs[KERNEL], s.dirs[d], base, ENTRIES);
    System(f.machine, s.dirs[child := f.dir])
  }

  /** What the loop does to views: each table the child gets of its own is a copy of the parent's. */
  function CloneViews(v: View, kernelDir: Directory, src: Directory, base: nat, n: nat): (r: View)
    requires TablesIn(src, v.Keys)
    ensures v.Keys <= r.Keys
  {
    if n == 0 then v
    else
      ViewRound(CloneViews(v, kernelDir, src, base, n - 1), kernelDir, src, base, n - 1)
  }

  function ViewRound(w: View, kernelDir: Directory, src: Directory, base: nat, i: nat): (r: View)
    requires TablesIn(src, w.Keys)
    ensures w.Keys <= r.Keys
  {
    if i in src && !IsKernel(kernelDir, src, i) then w[base + i := w[src[i]]] else w
  }

  /** Frames that the loop takes for pages that may not be shared. */
  function ForkCopies(v: View, kernelDir: Directory, src: Directory, n: nat): nat
    requires TablesIn(src, v.Keys)
  {
    if n == 0 then 0
    else ForkCopies(v, kernelDir, src, n - 1) +
         if n - 1 in src && !IsKernel(kernelDir, src, n - 1) then Copies(v[src[n - 1]], ENTRIES) else 0
  }

  ghost predicate AllBelow(tables: set<nat>, base: nat)
  {
    forall t <- tables :: t < base
  }

  /** A table that existed keeps its view; no table from `base + n` on exists yet. */
  lemma {:induction false} CloneViewsOld(v: View, kernelDir: Directory, src: Directory, base: nat, n: nat, t: nat)
    requires TablesIn(src, v.Keys) && AllBelow(v.Keys, base)
    ensures t in v ==> CloneViews(v, kernelDir, src, base, n)[t] == v[t]
    ensures base + n <= t ==> t !in CloneViews(v, kernelDir, src, base, n)
    decreases n
  {
    if n > 0 { CloneViewsOld(v, kernelDir, src, base, n - 1, t); }
  }

  /** A table that did not exist is the copy of one of the parent's own tables. */
  lemma {:induction false} CloneViewsKeys(v: View, kernelDir: Directory, src: Directory, base: nat, n: nat, t: nat)
    returns (i: nat)
    requires TablesIn(src, v.Keys) && t !in v && t in CloneViews(v, kernelDir, src, base, n)
    ensures i < n && t == base + i && i in src && !IsKernel(kernelDir, src, i)
    decreases n
  {
    if t in CloneViews(v, kernelDir, src, base, n - 1) {
      i := CloneViewsKeys(v, kernelDir, src, base, n - 1, t);
    } else {
      i := n - 1;
    }
  }

  /** A table made for the child has the view of the parent's table. */
  lemma {:induction false} CloneViewsNew(v: View, kernelDir: Directory, src: Directory, base: nat, n: nat, i: nat)
    requires TablesIn(src, v.Keys) && AllBelow(v.Keys, base)
    requires i < n && i in src && !IsKernel(kernelDir, src, i)
    ensures base + i in CloneViews(v, kernelDir, src, base, n)
    ensures CloneViews(v, kernelDir, src, base, n)[base + i] == v[src[i]]
    decreases n
  {
    if i < n - 1 {
      CloneViewsNew(v, kernelDir, src, base, n - 1, i);
    } else {
      CloneViewsOld(v, kernelDir, src, base, n - 1, src[i]);
    }
  }

  /** The source directory tells its kernel tables from its own, and the new tables have fresh addresses. */
  ghost predicate Forkable(v: View, kernel: set<nat>, kernelDir: Directory, src: Directory, base: nat)
  {
    && TablesIn(src, v.Keys) && AllBelow(v.Keys, base) && AllBelow(kernel, base)
    && forall i <- src :: IsKernel(kernelDir, src, i) <==> src[i] in kernel
  }

  /**
   What the loop of mmu_clone_directory has made, after `n` rounds, of tables that read as `v`
   and `free` free frames.
   */
  ghost predicate Cloned(
      v: View, kernel: set<nat>, free: nat, kernelDir: Directory, src: Directory, base: nat, n: nat, m: Machine)
    requires TablesIn(src, v.Keys)
  {
    && TableInv(m) && m.kernel == kernel
    && ViewOf(m) == CloneViews(v, kernelDir, src, base, n)
    && |FreeFrames(m)| == free - ForkCopies(v, kernelDir, src, n)
  }

  lemma OwnRoundKeeps(
    v: View, kernel: set<nat>, free: nat, kernelDir: Directory, src: Directory, base: nat, i: nat, m: Machine)
    returns (r: Machine)
    requires Forkable(v, kernel, kernelDir, src, base) && Cloned(v, kernel, free, kernelDir, src, base, i, m)
    requires free >= ForkCopies(v, kernelDir, src, i + 1)
    requires i in src && !IsKernel(kernelDir, src, i) && src[i] in m.tables
    ensures r == CloneTable(m, src[i], base + i)
    ensures Cloned(v, kernel, free, kernelDir, src, base, i + 1, r)
  {
    hide CloneTable, Accounting, Exclusive, SlotsOk, Copies, FreeFrames;
    CloneViewsOld(v, kernelDir, src, base, i, src[i]);
    CloneViewsOld(v, kernelDir, src, base, i, base + i);
    assert base + i !in ViewOf(m) && base + i !in m.tables;
    assert ForkCopies(v, kernelDir, src, i + 1) == ForkCopies(v, kernelDir, src, i) + Copies(v[src[i]], ENTRIES);
    r := CloneTableKeeps(m, src[i], base + i);
  }

  lemma CloneRoundKeeps(
    v: View, kernel: set<nat>, free: nat, kernelDir: Directory, src: Directory, base: nat, i: nat, f: Forking)
    returns (r: Forking)
    requires Forkable(v, kernel, kernelDir, src, base) && Cloned(v, kernel, free, kernelDir, src, base, i, f.machine)
    requires free >= ForkCopies(v, kernelDir, src, i + 1)
    requires WellFormed(f.machine) && TablesIn(src, f.machine.tables.Keys)
    ensures r == CloneRound(f, kernelDir, src, base, i)
    ensures Cloned(v, kernel, free, kernelDir, src, base, i + 1, r.machine)
  {
    r := f;
    if i in src {
      if IsKernel(kernelDir, src, i) {
        r := Forking(f.machine, Enter(f.dir, i, src[i]));
      } else {
        var m := OwnRoundKeeps(v, kernel, free, kernelDir, src, base, i, f.machine);
        hide CloneTable, TableInv, CloneViews, ForkCopies;
        r := Forking(m, Enter(f.dir, i, base + i));
      }
    }
  }

  lemma {:induction false} CloneTablesKeeps(m: Machine, kernelDir: Directory, src: Directory, base: nat, n: nat)
    returns (f: Forking)
    requires TableInv(m) && Forkable(ViewOf(m), m.kernel, kernelDir, src, base)
    requires |FreeFrames(m)| >= ForkCopies(ViewOf(m), kernelDir, src, n)
    ensures f == CloneTables(m, kernelDir, src, base, n)
    ensures Cloned(ViewOf(m), m.kernel, |FreeFrames(m)|, kernelDir, src, base, n, f.machine)
    decreases n
  {
    if n == 0 {
      f := Forking(m, map[]);
    } else {
      var g := CloneTablesKeeps(m, kernelDir, src, base, n - 1);
      f := CloneRoundKeeps(ViewOf(m), m.kernel, |FreeFrames(m)|, kernelDir, src, base, n - 1, g);
    }
  }

  /** The directory that the loop fills: kernel tables by identity, a new table for each other one. */
  lemma {:induction false} ClonedDirectory(m: Machine, kernelDir: Directory, src: Directory, base: nat, n: nat, i: nat)
    requires WellFormed(m) && TablesIn(src, m.tables.Keys)
    ensures var dir := CloneTables(m, kernelDir, src, base, n).dir;
            && (i in dir <==> i < n && i in src)
            && (i in dir ==> dir[i] == if IsKernel(kernelDir, src, i) then src[i] else base + i)
    decreases n
  {
    hide CloneTable;
    if n > 0 { ClonedDirectory(m, kernelDir, src, base, n - 1, i); }
  }

  // ---- Exit ----

  /** The first `n` rounds of the loop of mmu_destroy_directory. */
  function FreeTables(m: Machine, kernelDir: Directory, dir: Directory, n: nat): (r: Machine)
    requires WellFormed(m) && TablesIn(dir, m.tables.Keys)
    ensures WellFormed(r) && r.tables.Keys == m.tables.Keys
  {
    if n == 0 then m
    else
      FreeRound(FreeTables(m, kernelDir, dir, n - 1), kernelDir, dir, n - 1)
  }

  function FreeRound(m: Machine, kernelDir: Directory, dir: Directory, i: nat): (r: Machine)
    requires WellFormed(m) && TablesIn(dir, m.tables.Keys)
    ensures WellFormed(r) && r.tables.Keys == m.tables.Keys
  {
    if i in dir && !IsKernel(kernelDir, dir, i) then FreeSlots(m, dir[i], ENTRIES) else m
  }

  /** mmu_destroy_directory */
  function Exit(s: System, d: nat): (r: System)
    requires WellFormedSystem(s) && d in s.dirs
  {
    System(FreeTables(s.machine, s.dirs[KERNEL], s.dirs[d], ENTRIES), s.dirs - {d})
  }

  function FreeViews(v: View, kernelDir: Directory, dir: Directory, n: nat): (r: View)
    requires TablesIn(dir, v.Keys)
    ensures r.Keys == v.Keys
  {
    if n == 0 then v else FreeViewRound(FreeViews(v, kernelDir, dir, n - 1), kernelDir, dir, n - 1)
  }

  function FreeViewRound(v: View, kernelDir: Directory, dir: Directory, i: nat): (r: View)
    requires TablesIn(dir, v.Keys)
    ensures r.Keys == v.Keys
  {
    if i in dir && !IsKernel(kernelDir, dir, i) then v[dir[i] := NoPages()] else v
  }

  lemma {:induction false} FreeViewsElsewhere(v: View, kernelDir: Directory, dir: Directory, n: nat, t: nat)
    requires TablesIn(dir, v.Keys) && t in v
    requires forall i <- dir :: dir[i] == t ==> IsKernel(kernelDir, dir, i)
    ensures FreeViews(v, kernelDir, dir, n)[t] == v[t]
    decreases n
  {
    if n > 0 { FreeViewsElsewhere(v, kernelDir, dir, n - 1, t); }
  }

  /** A table that maps nothing goes on mapping nothing. */
  lemma {:induction false} FreeViewsEmpty(v: View, kernelDir: Directory, dir: Directory, n: nat, t: nat)
    requires TablesIn(dir, v.Keys) && t in v && v[t] == NoPages()
    ensures FreeViews(v, kernelDir, dir, n)[t] == NoPages()
    decreases n
  {
    if n > 0 { FreeViewsEmpty(v, kernelDir, dir, n - 1, t); }
  }

  /** The directory's own tables end up empty. */
  lemma {:induction false} FreeViewsOwn(v: View, kernelDir: Directory, dir: Directory, n: nat, i: nat)
    requires TablesIn(dir, v.Keys) && i in dir && !IsKernel(kernelDir, dir, i) && i < n
    ensures FreeViews(v, kernelDir, dir, n)[dir[i]] == NoPages()
    decreases n
  {
    if i < n - 1 { FreeViewsOwn(v, kernelDir, dir, n - 1, i); }
  }

  lemma FreeRoundKeeps(m: Machine, kernelDir: Directory, dir: Directory, i: nat) returns (r: Machine)
    requires TableInv(m) && TablesIn(dir, m.tables.Keys)
    requires i in dir ==> (IsKernel(kernelDir, dir, i) <==> dir[i] in m.kernel)
    ensures r == FreeRound(m, kernelDir, dir, i)
    ensures TableInv(r) && r.kernel == m.kernel
    ensures ViewOf(r) == FreeViewRound(ViewOf(m), kernelDir, dir, i)
  {
    r := m;
    if i in dir && !IsKernel(kernelDir, dir, i) {
      hide FreeSlots, Accounting, Exclusive, SlotsOk;
      r := FreeTableKeeps(m, dir[i]);
    }
  }

  /** The loop of mmu_destroy_directory keeps the counting invariant and empties the directory's own tables. */
  lemma {:induction false} FreeTablesKeeps(m: Machine, kernelDir: Directory, dir: Directory, n: nat)
    returns (r: Machine)
    requires TableInv(m) && TablesIn(dir, m.tables.Keys)
    requires forall i <- dir :: IsKernel(kernelDir, dir, i) <==> dir[i] in m.kernel
    ensures r == FreeTables(m, kernelDir, dir, n)
    ensures TableInv(r) && r.kernel == m.kernel
    ensures ViewOf(r) == FreeViews(ViewOf(m), kernelDir, dir, n)
    decreases n
  {
    hide Accounting, Exclusive, SlotsOk, FreeRound, FreeViewRound, Content;
    if n == 0 {
      r := m;
    } else {
      var q := FreeTablesKeeps(m, kernelDir, dir, n - 1);
      r := FreeRoundKeeps(q, kernelDir, dir, n - 1);
    }
  }

  // ---- Single pages ----

  /** mmu_alloc_page as kalloc calls it: the table is made at `newTable` if the directory has none. */
  function MapPage(s: System, d: nat, i: nat, j: nat, cow: bool, noshare: bool, newTable: nat): (r: System)
    requires WellFormedSystem(s) && d in s.dirs && j < ENTRIES
  {
    if i in s.dirs[d] then System(AllocSlot(s.machine, s.dirs[d][i], j, cow, noshare), s.dirs)
    else System(AllocSlot(AddTable(s.machine, newTable), newTable, j, cow, noshare),
                s.dirs[d := Enter(s.dirs[d], i, newTable)])
  }

  /** mmu_frame_free as kfree calls it. */
  function UnmapPage(s: System, d: nat, i: nat, j: nat): (r: System)
    requires WellFormedSystem(s) && d in s.dirs && i in s.dirs[d] && j < ENTRIES
  {
    System(FrameFree(s.machine, s.dirs[d][i], j), s.dirs)
  }

  /** A store by a process running on directory `d`. */
  function WriteByte(s: System, d: nat, i: nat, j: nat, offset: Offset, value: Byte): (r: System)
    requires WellFormedSystem(s) && d in s.dirs && i in s.dirs[d] && j < ENTRIES
  {
    System(UserWrite(s.machine, s.dirs[d][i], j, offset, value).machine, s.dirs)
  }
}
