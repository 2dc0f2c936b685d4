/** Fork by copy-on-write is indistinguishable from fork by copying. */
module CowEager {

  // `Eager` is the reference: every address space owns its pages outright and fork
  // copies all of them. The theorem says that in every run of page allocation, page
  // release, user stores, forks and exits, each address space of the real machine
  // reads exactly what it would read in the reference and every store succeeds or
  // fails alike; and that exact reference counting holds throughout.

  import opened Values
  import opened Cow
  import opened CowInvariant
  import opened CowTables
  import opened CowSpaces

  // ---- What directories keep ----

  /**
   Two places that hold the same table are the same place, or the same index of two directories
   and a kernel table.
   */
  predicate Unaliased(dirs: map<nat, Directory>, d: nat, i: nat, d': nat, i': nat)
  {
    d in dirs && i in dirs[d] && d' in dirs && i' in dirs[d'] && dirs[d][i] == dirs[d'][i'] ==>
      i == i' && (d == d' || (KERNEL in dirs && i in dirs[KERNEL]))
  }

  predicate DirectoryOk(kernelDir: Directory, dir: Directory, tables: set<nat>)
  {
    && (forall i <- dir :: i < ENTRIES && dir[i] in tables)
    && (forall i <- kernelDir :: i in dir && dir[i] == kernelDir[i])
  }

  /** Kernel tables sit at the same index of every directory; any other table has one place. */
  ghost predicate DirectoriesOk(dirs: map<nat, Directory>, tables: set<nat>, kernel: set<nat>)
  {
    && KERNEL in dirs && kernel == dirs[KERNEL].Values
    && (forall d <- dirs :: DirectoryOk(dirs[KERNEL], dirs[d], tables))
    && (forall d: nat, i: nat, d': nat, i': nat :: Unaliased(dirs, d, i, d', i'))
  }

  predicate HeldAt(dirs: map<nat, Directory>, d: nat, i: nat, t: nat)
  {
    d in dirs && i in dirs[d] && dirs[d][i] == t
  }

  /** Some address space can reach table `t`. */
  ghost predicate Live(dirs: map<nat, Directory>, t: nat)
  {
    exists d: nat, i: nat :: HeldAt(dirs, d, i, t)
  }

  /** A table that no address space can reach maps no page. */
  ghost predicate NothingLost(dirs: map<nat, Directory>, v: View)
  {
    forall t <- v :: Live(dirs, t) || v[t] == NoPages()
  }

  ghost predicate Inv(s: System)
  {
    && TableInv(s.machine)
    && DirectoriesOk(s.dirs, s.machine.tables.Keys, s.machine.kernel)
    && NothingLost(s.dirs, ViewOf(s.machine))
  }

  lemma OwnOrKernel(dirs: map<nat, Directory>, tables: set<nat>, kernel: set<nat>, d: nat, i: nat)
    requires DirectoriesOk(dirs, tables, kernel) && d in dirs && i in dirs[d]
    ensures IsKernel(dirs[KERNEL], dirs[d], i) <==> i in dirs[KERNEL]
    ensures IsKernel(dirs[KERNEL], dirs[d], i) <==> dirs[d][i] in kernel
  {
    assert DirectoryOk(dirs[KERNEL], dirs[d], tables);
    if i in dirs[KERNEL] {
      assert dirs[KERNEL][i] in dirs[KERNEL].Values;
    } else {
      forall k <- dirs[KERNEL] ensures dirs[KERNEL][k] != dirs[d][i] {
        assert Unaliased(dirs, d, i, KERNEL, k);
      }
    }
  }

  /** What address space `d` finds at page `j` of table `i`. */
  function Look(dirs: map<nat, Directory>, v: View, d: nat, i: nat, j: nat): Option<Mapping>
  {
    if d in dirs && i in dirs[d] && dirs[d][i] in v && j < ENTRIES then v[dirs[d][i]][j] else None
  }

  // ---- The reference ----

  type Pages = map<(nat, nat), Mapping>

  /** Kernel pages are common to all address spaces; each space owns its other pages. */
  datatype Eager = Eager(kernelRange: set<nat>, kernel: Pages, spaces: map<nat, Pages>)

  function Get(p: Pages, i: nat, j: nat): Option<Mapping>
  {
    if (i, j) in p then Some(p[(i, j)]) else None
  }

  function Put(p: Pages, i: nat, j: nat, m: Option<Mapping>): Pages
  {
    if m.Some? then p[(i, j) := m.value] else p - {(i, j)}
  }

  function ELook(e: Eager, d: nat, i: nat, j: nat): Option<Mapping>
  {
    if d !in e.spaces then None
    else if i in e.kernelRange then Get(e.kernel, i, j)
    else Get(e.spaces[d], i, j)
  }

  function EPut(e: Eager, d: nat, i: nat, j: nat, m: Option<Mapping>): Eager
  {
    if d !in e.spaces then e
    else if i in e.kernelRange then e.(kernel := Put(e.kernel, i, j, m))
    else e.(spaces := e.spaces[d := Put(e.spaces[d], i, j, m)])
  }

  ghost predicate Refines(dirs: map<nat, Directory>, v: View, e: Eager)
  {
    && KERNEL in dirs && e.kernelRange == dirs[KERNEL].Keys && e.spaces.Keys == dirs.Keys
    && forall d: nat, i: nat, j: nat :: Look(dirs, v, d, i, j) == ELook(e, d, i, j)
  }

  // ---- Each kind of step, on views ----

  lemma EntryStep(
      dirs: map<nat, Directory>, v: View, kernel: set<nat>, e: Eager, d: nat, i: nat, j: nat, m: Option<Mapping>)
    requires DirectoriesOk(dirs, v.Keys, kernel) && Refines(dirs, v, e)
    requires d in dirs && i in dirs[d] && dirs[d][i] in v && j < ENTRIES
    ensures Refines(dirs, SetEntry(v, dirs[d][i], j, m), EPut(e, d, i, j, m))
  {
    var w, e' := SetEntry(v, dirs[d][i], j, m), EPut(e, d, i, j, m);
    forall d': nat, i': nat, j': nat ensures Look(dirs, w, d', i', j') == ELook(e', d', i', j') {
      assert Look(dirs, v, d', i', j') == ELook(e, d', i', j');
      assert Unaliased(dirs, d, i, d', i');
      if d' in dirs {
        assert DirectoryOk(dirs[KERNEL], dirs[d'], v.Keys);
        assert DirectoryOk(dirs[KERNEL], dirs[d], v.Keys);
      }
    }
  }

  lemma EntryLosesNothing(dirs: map<nat, Directory>, v: View, d: nat, i: nat, j: nat, m: Option<Mapping>)
    requires NothingLost(dirs, v) && d in dirs && i in dirs[d] && dirs[d][i] in v && j < ENTRIES
    ensures NothingLost(dirs, SetEntry(v, dirs[d][i], j, m))
  {
    assert HeldAt(dirs, d, i, dirs[d][i]);
  }

  lemma NewTableLosesNothing(dirs: map<nat, Directory>, v: View, d: nat, i: nat, t: nat)
    requires NothingLost(dirs, v) && d in dirs && i !in dirs[d] && t !in v
    ensures NothingLost(dirs[d := Enter(dirs[d], i, t)], v[t := NoPages()])
  {
    var dirs', w := dirs[d := Enter(dirs[d], i, t)], v[t := NoPages()];
    forall t' <- w | Live(dirs, t') ensures Live(dirs', t') {
      var d', i' :| HeldAt(dirs, d', i', t');
      assert HeldAt(dirs', d', i', t');
    }
  }

  /** The tables made for a child are in its directory; every other table is where it was. */
  lemma ForkLosesNothing(dirs: map<nat, Directory>, v: View, d: nat, child: nat, dir: Directory, base: nat)
    requires NothingLost(dirs, v) && child !in dirs && ClonedFrom(dirs, d, dir, base)
    requires TablesIn(dirs[d], v.Keys) && AllBelow(v.Keys, base)
    requires forall i <- dirs[d] :: IsKernel(dirs[KERNEL], dirs[d], i) <==> i in dirs[KERNEL]
    ensures NothingLost(dirs[child := dir], CloneViews(v, dirs[KERNEL], dirs[d], base, ENTRIES))
  {
    hide CloneViews;
    var dirs', w := dirs[child := dir], CloneViews(v, dirs[KERNEL], dirs[d], base, ENTRIES);
    forall t <- w ensures Live(dirs', t) || w[t] == NoPages() {
      CloneViewsOld(v, dirs[KERNEL], dirs[d], base, ENTRIES, t);
      if t in v {
        if Live(dirs, t) {
          var d', i' :| HeldAt(dirs, d', i', t);
          assert HeldAt(dirs', d', i', t);
        }
      } else {
        var i := CloneViewsKeys(v, dirs[KERNEL], dirs[d], base, ENTRIES, t);
        assert HeldAt(dirs', child, i, t);
      }
    }
  }

  /** The tables only the ending process had are emptied. */
  lemma ExitEmpties(dirs: map<nat, Directory>, v: View, kernel: set<nat>, d: nat, d': nat, i: nat, t: nat)
    requires DirectoriesOk(dirs, v.Keys, kernel) && d in dirs && d != KERNEL
    requires TablesIn(dirs[d], v.Keys) && HeldAt(dirs, d', i, t)
    ensures t in v
    ensures Live(dirs - {d}, t) || FreeViews(v, dirs[KERNEL], dirs[d], ENTRIES)[t] == NoPages()
  {
    hide FreeViews, Unaliased, NoPages;
    assert DirectoryOk(dirs[KERNEL], dirs[d], v.Keys) && DirectoryOk(dirs[KERNEL], dirs[d'], v.Keys);
    if d' != d {
      assert HeldAt(dirs - {d}, d', i, t);
    } else if IsKernel(dirs[KERNEL], dirs[d], i) {
      assert HeldAt(dirs - {d}, KERNEL, i, t);
    } else {
      FreeViewsOwn(v, dirs[KERNEL], dirs[d], ENTRIES, i);
    }
  }

  lemma ExitLosesNothing(dirs: map<nat, Directory>, v: View, kernel: set<nat>, d: nat)
    requires DirectoriesOk(dirs, v.Keys, kernel) && NothingLost(dirs, v) && d in dirs && d != KERNEL
    requires TablesIn(dirs[d], v.Keys)
    ensures NothingLost(dirs - {d}, FreeViews(v, dirs[KERNEL], dirs[d], ENTRIES))
  {
    hide FreeViews, DirectoryOk, Unaliased, NoPages;
    var w := FreeViews(v, dirs[KERNEL], dirs[d], ENTRIES);
    forall t <- w ensures Live(dirs - {d}, t) || w[t] == NoPages() {
      if Live(dirs, t) {
        var d', i :| HeldAt(dirs, d', i, t);
        ExitEmpties(dirs, v, kernel, d, d', i, t);
      } else {
        FreeViewsEmpty(v, dirs[KERNEL], dirs[d], ENTRIES, t);
      }
    }
  }

  lemma NewTableStep(dirs: map<nat, Directory>, v: View, kernel: set<nat>, e: Eager, d: nat, i: nat, t: nat)
    requires DirectoriesOk(dirs, v.Keys, kernel) && Refines(dirs, v, e)
    requires d in dirs && d != KERNEL && i < ENTRIES && i !in dirs[d] && t !in v
    ensures DirectoriesOk(dirs[d := Enter(dirs[d], i, t)], v.Keys + {t}, kernel)
    ensures Refines(dirs[d := Enter(dirs[d], i, t)], v[t := NoPages()], e)
  {
    var dirs', w := dirs[d := Enter(dirs[d], i, t)], v[t := NoPages()];
    forall x <- dirs' ensures DirectoryOk(dirs'[KERNEL], dirs'[x], v.Keys + {t}) {
      assert DirectoryOk(dirs[KERNEL], dirs[x], v.Keys);
    }
    forall x: nat, k: nat, y: nat, l: nat ensures Unaliased(dirs', x, k, y, l) {
      assert Unaliased(dirs, x, k, y, l);
      if x in dirs { assert DirectoryOk(dirs[KERNEL], dirs[x], v.Keys); }
      if y in dirs { assert DirectoryOk(dirs[KERNEL], dirs[y], v.Keys); }
    }
    forall x: nat, k: nat, j: nat ensures Look(dirs', w, x, k, j) == ELook(e, x, k, j) {
      assert Look(dirs, v, x, k, j) == ELook(e, x, k, j);
      if x in dirs { assert DirectoryOk(dirs[KERNEL], dirs[x], v.Keys); }
    }
  }

  function EFork(e: Eager, d: nat, child: nat): Eager
  {
    if d !in e.spaces then e else e.(spaces := e.spaces[child := e.spaces[d]])
  }

  function EExit(e: Eager, d: nat): Eager
  {
    e.(spaces := e.spaces - {d})
  }

  /** `dir` is what mmu_clone_directory makes of directory `d`. */
  ghost predicate ClonedFrom(dirs: map<nat, Directory>, d: nat, dir: Directory, base: nat)
  {
    && KERNEL in dirs && d in dirs
    && forall i: nat ::
         && (i in dir <==> i in dirs[d])
         && (i in dir ==> dir[i] == if i in dirs[KERNEL] then dirs[d][i] else base + i)
  }

  lemma ForkDirectories(
      dirs: map<nat, Directory>, v: View, w: View, kernel: set<nat>, d: nat, child: nat, dir: Directory, base: nat)
    requires DirectoriesOk(dirs, v.Keys, kernel) && child !in dirs && ClonedFrom(dirs, d, dir, base)
    requires AllBelow(v.Keys, base) && v.Keys <= w.Keys
    requires forall i <- dirs[d] :: i !in dirs[KERNEL] ==> base + i in w
    ensures DirectoriesOk(dirs[child := dir], w.Keys, kernel)
  {
    var dirs' := dirs[child := dir];
    forall x <- dirs' ensures DirectoryOk(dirs'[KERNEL], dirs'[x], w.Keys) {
      assert DirectoryOk(dirs[KERNEL], dirs[d], v.Keys);
      if x != child { assert DirectoryOk(dirs[KERNEL], dirs[x], v.Keys); }
    }
    forall x: nat, k: nat, y: nat, l: nat ensures Unaliased(dirs', x, k, y, l) {
      assert Unaliased(dirs, if x == child then d else x, k, if y == child then d else y, l);
      assert DirectoryOk(dirs[KERNEL], dirs[d], v.Keys);
      if x in dirs { assert DirectoryOk(dirs[KERNEL], dirs[x], v.Keys); }
      if y in dirs { assert DirectoryOk(dirs[KERNEL], dirs[y], v.Keys); }
    }
  }

  lemma ForkLooks(
      dirs: map<nat, Directory>, v: View, w: View, kernel: set<nat>, e: Eager, d: nat, child: nat, dir: Directory,
      base: nat)
    requires DirectoriesOk(dirs, v.Keys, kernel) && child !in dirs && ClonedFrom(dirs, d, dir, base)
    requires Refines(dirs, v, e)
    requires v.Keys <= w.Keys && forall t <- v :: w[t] == v[t]
    requires forall i <- dirs[d] ::
               dirs[d][i] in v && (i !in dirs[KERNEL] ==> base + i in w && w[base + i] == v[dirs[d][i]])
    ensures Refines(dirs[child := dir], w, EFork(e, d, child))
  {
    var dirs', e' := dirs[child := dir], EFork(e, d, child);
    forall x: nat, k: nat, j: nat ensures Look(dirs', w, x, k, j) == ELook(e', x, k, j) {
      assert Look(dirs, v, if x == child then d else x, k, j) == ELook(e, if x == child then d else x, k, j);
      if x in dirs { assert DirectoryOk(dirs[KERNEL], dirs[x], v.Keys); }
    }
  }

  /** A table that another directory can reach is not emptied when `d` goes. */
  lemma ReachableKept(dirs: map<nat, Directory>, v: View, kernel: set<nat>, d: nat, x: nat, k: nat)
    requires DirectoriesOk(dirs, v.Keys, kernel) && d in dirs && TablesIn(dirs[d], v.Keys)
    requires x in dirs && x != d && k in dirs[x] && dirs[x][k] in v
    ensures FreeViews(v, dirs[KERNEL], dirs[d], ENTRIES)[dirs[x][k]] == v[dirs[x][k]]
  {
    forall i <- dirs[d] | dirs[d][i] == dirs[x][k] ensures IsKernel(dirs[KERNEL], dirs[d], i) {
      assert Unaliased(dirs, d, i, x, k);
      OwnOrKernel(dirs, v.Keys, kernel, d, i);
    }
    FreeViewsElsewhere(v, dirs[KERNEL], dirs[d], ENTRIES, dirs[x][k]);
  }

  lemma ExitDirectories(dirs: map<nat, Directory>, tables: set<nat>, kernel: set<nat>, d: nat)
    requires DirectoriesOk(dirs, tables, kernel) && d in dirs && d != KERNEL
    ensures DirectoriesOk(dirs - {d}, tables, kernel)
  {
    var dirs' := dirs - {d};
    forall x: nat, k: nat, y: nat, l: nat ensures Unaliased(dirs', x, k, y, l) {
      assert Unaliased(dirs, x, k, y, l);
    }
  }

  lemma ExitLook(dirs: map<nat, Directory>, v: View, kernel: set<nat>, d: nat, x: nat, k: nat, j: nat)
    requires DirectoriesOk(dirs, v.Keys, kernel) && d in dirs && TablesIn(dirs[d], v.Keys) && x != d
    ensures Look(dirs - {d}, FreeViews(v, dirs[KERNEL], dirs[d], ENTRIES), x, k, j) == Look(dirs, v, x, k, j)
  {
    hide FreeViews;
    if x in dirs && k in dirs[x] && dirs[x][k] in v {
      ReachableKept(dirs, v, kernel, d, x, k);
    }
  }

  lemma ExitLooks(dirs: map<nat, Directory>, v: View, kernel: set<nat>, e: Eager, d: nat)
    requires DirectoriesOk(dirs, v.Keys, kernel) && Refines(dirs, v, e) && d in dirs && d != KERNEL
    requires TablesIn(dirs[d], v.Keys)
    ensures Refines(dirs - {d}, FreeViews(v, dirs[KERNEL], dirs[d], ENTRIES), EExit(e, d))
  {
    hide FreeViews, Unaliased, DirectoryOk;
    var dirs', w, e' := dirs - {d}, FreeViews(v, dirs[KERNEL], dirs[d], ENTRIES), EExit(e, d);
    forall x: nat, k: nat, j: nat ensures Look(dirs', w, x, k, j) == ELook(e', x, k, j) {
      assert Look(dirs, v, x, k, j) == ELook(e, x, k, j);
      if x != d { ExitLook(dirs, v, kernel, d, x, k, j); }
    }
  }

  // ---- Runs ----

  /** The paging routines, as the rest of the kernel and the running processes invoke them. */
  datatype Op =
    | OpMap(d: nat, i: nat, j: nat, cow: bool, noshare: bool, newTable: nat)
    | OpUnmap(d: nat, i: nat, j: nat)
    | OpWrite(d: nat, i: nat, j: nat, offset: Offset, value: Byte)
    | OpFork(d: nat, child: nat, base: nat)
    | OpExit(d: nat)

  /** The caller's side: objects exist, new addresses are fresh, and a free frame is there when one is taken. */
  ghost predicate Enabled(s: System, op: Op)
    requires WellFormedSystem(s)
  {
    match op
    case OpMap(d, i, j, _, _, newTable) =>
      && d in s.dirs && i < ENTRIES && j < ENTRIES && FreeFrames(s.machine) != {}
      && (if i in s.dirs[d]
          then var slot := SlotAt(s.machine, s.dirs[d][i], j); slot.frame == 0 && !slot.present
          else d != KERNEL && newTable !in s.machine.tables)
    case OpUnmap(d, i, j) =>
      && d in s.dirs && i in s.dirs[d] && j < ENTRIES
      && (SlotAt(s.machine, s.dirs[d][i], j).frame != 0 || i !in s.dirs[KERNEL])
    case OpWrite(d, i, j, offset, _) =>
      && d in s.dirs && i in s.dirs[d] && j < ENTRIES
      && (NeedsFrame(s.machine, s.dirs[d][i], j) ==> FreeFrames(s.machine) != {})
    case OpFork(d, child, base) =>
      && d in s.dirs && child !in s.dirs && AllBelow(s.machine.tables.Keys, base)
      && |FreeFrames(s.machine)| >= ForkCopies(ViewOf(s.machine), s.dirs[KERNEL], s.dirs[d], ENTRIES)
    case OpExit(d) => d in s.dirs && d != KERNEL
  }

  ghost function Apply(s: System, op: Op): System
    requires WellFormedSystem(s) && Enabled(s, op)
  {
    match op
    case OpMap(d, i, j, cow, noshare, newTable) => MapPage(s, d, i, j, cow, noshare, newTable)
    case OpUnmap(d, i, j) => UnmapPage(s, d, i, j)
    case OpWrite(d, i, j, offset, value) => WriteByte(s, d, i, j, offset, value)
    case OpFork(d, child, base) => Fork(s, d, child, base)
    case OpExit(d) => Exit(s, d)
  }

  /** Whether the store of an OpWrite completes, rather than ending in an unhandled fault. */
  ghost predicate Completes(s: System, op: Op)
    requires WellFormedSystem(s) && Enabled(s, op) && op.OpWrite?
  {
    UserWrite(s.machine, s.dirs[op.d][op.i], op.j, op.offset, op.value).ok
  }

  /** The same step in the reference; `first` is what the frame of a newly mapped page happens to hold. */
  function EApply(e: Eager, op: Op, first: Page): Eager
  {
    match op
    case OpMap(d, i, j, cow, noshare, _) => EPut(e, d, i, j, Some(Mapping(first, true, true, cow, noshare)))
    case OpUnmap(d, i, j) => EPut(e, d, i, j, None)
    case OpWrite(d, i, j, offset, value) =>
      if ECompletes(e, op) then EPut(e, d, i, j, Some(Stored(ELook(e, d, i, j).value, offset, value))) else e
    case OpFork(d, child, _) => EFork(e, d, child)
    case OpExit(d) => EExit(e, d)
  }

  predicate ECompletes(e: Eager, op: Op)
    requires op.OpWrite?
  {
    ELook(e, op.d, op.i, op.j).Some? && ELook(e, op.d, op.i, op.j).value.writable
  }

  /** The frame a new page gets is the lowest free one. */
  function FirstContents(s: System): Page
    requires WellFormed(s.machine)
  {
    s.machine.memory[NextFrame(s.machine)]
  }

  ghost predicate StepOk(s: System, e: Eager, op: Op)
    requires WellFormedSystem(s) && Enabled(s, op)
  {
    && Inv(Apply(s, op))
    && Refines(Apply(s, op).dirs, ViewOf(Apply(s, op).machine), EApply(e, op, FirstContents(s)))
    && (op.OpWrite? ==> (Completes(s, op) <==> ECompletes(e, op)))
  }

  /** A routine that changes one entry of the view of a table in a directory. */
  lemma EntryChanged(s: System, r: Machine, e: Eager, d: nat, i: nat, j: nat, m: Option<Mapping>)
    requires Inv(s) && Refines(s.dirs, ViewOf(s.machine), e) && d in s.dirs && i in s.dirs[d] && j < ENTRIES
    requires s.dirs[d][i] in s.machine.tables
    requires TableInv(r) && r.kernel == s.machine.kernel
    requires ViewOf(r) == SetEntry(ViewOf(s.machine), s.dirs[d][i], j, m)
    ensures Inv(System(r, s.dirs)) && Refines(s.dirs, ViewOf(r), EPut(e, d, i, j, m))
  {
    hide Accounting, Exclusive, SlotsOk, DirectoriesOk, NothingLost, Refines, EPut, Content;
    assert r.tables.Keys == ViewOf(r).Keys == ViewOf(s.machine).Keys;
    EntryStep(s.dirs, ViewOf(s.machine), s.machine.kernel, e, d, i, j, m);
    EntryLosesNothing(s.dirs, ViewOf(s.machine), d, i, j, m);
  }

  lemma MapInTable(s: System, e: Eager, op: Op)
    requires Inv(s) && WellFormedSystem(s) && op.OpMap? && Enabled(s, op) && Refines(s.dirs, ViewOf(s.machine), e)
    requires op.i in s.dirs[op.d]
    ensures StepOk(s, e, op)
  {
    hide Accounting, Exclusive, SlotsOk, AllocSlot, ViewOf, DirectoriesOk, NothingLost, Refines, EPut;
    var OpMap(d, i, j, cow, noshare, newTable) := op;
    var r := AllocSlotView(s.machine, s.dirs[d][i], j, cow, noshare);
    EntryChanged(s, r, e, d, i, j, Some(Mapping(FirstContents(s), true, true, cow, noshare)));
  }

  lemma MapInNewTable(s: System, e: Eager, op: Op)
    requires Inv(s) && WellFormedSystem(s) && op.OpMap? && Enabled(s, op) && Refines(s.dirs, ViewOf(s.machine), e)
    requires op.i !in s.dirs[op.d]
    ensures StepOk(s, e, op)
  {
    hide Accounting, Exclusive, SlotsOk, AllocSlot, Look, ELook, Unaliased, DirectoryOk, Content, FreeFrames,
         LowestFree;
    var OpMap(d, i, j, cow, noshare, newTable) := op;
    var r := AllocInNewTable(s.machine, newTable, j, cow, noshare);
    var m := Mapping(FirstContents(s), true, true, cow, noshare);
    NewPageStep(s.dirs, ViewOf(s.machine), s.machine.kernel, e, d, i, newTable, j, m);
  }

  /** A table made for one page. */
  lemma NewPageStep(
    dirs: map<nat, Directory>, v: View, kernel: set<nat>, e: Eager, d: nat, i: nat, t: nat, j: nat, m: Mapping)
    requires DirectoriesOk(dirs, v.Keys, kernel) && Refines(dirs, v, e)
    requires d in dirs && d != KERNEL && i < ENTRIES && i !in dirs[d] && t !in v && j < ENTRIES
    requires NothingLost(dirs, v)
    ensures var dirs' := dirs[d := Enter(dirs[d], i, t)];
            && DirectoriesOk(dirs', v.Keys + {t}, kernel)
            && NothingLost(dirs', SetEntry(v[t := NoPages()], t, j, Some(m)))
            && Refines(dirs', SetEntry(v[t := NoPages()], t, j, Some(m)), EPut(e, d, i, j, Some(m)))
  {
    hide Look, ELook, Unaliased, DirectoryOk, SetEntry, EPut;
    NewTableStep(dirs, v, kernel, e, d, i, t);
    var dirs', w := dirs[d := Enter(dirs[d], i, t)], v[t := NoPages()];
    assert w.Keys == v.Keys + {t};
    EntryStep(dirs', w, kernel, e, d, i, j, Some(m));
    NewTableLosesNothing(dirs, v, d, i, t);
    EntryLosesNothing(dirs', w, d, i, j, Some(m));
  }

  lemma UnmapStep(s: System, e: Eager, op: Op)
    requires Inv(s) && WellFormedSystem(s) && op.OpUnmap? && Enabled(s, op) && Refines(s.dirs, ViewOf(s.machine), e)
    ensures StepOk(s, e, op)
  {
    hide Accounting, Exclusive, SlotsOk, FrameFree, ViewOf, DirectoriesOk, NothingLost, Refines, EPut;
    var OpUnmap(d, i, j) := op;
    OwnOrKernel(s.dirs, s.machine.tables.Keys, s.machine.kernel, d, i);
    var r := FrameFreeView(s.machine, s.dirs[d][i], j);
    EntryChanged(s, r, e, d, i, j, None);
  }

  /** A store completes on the machine exactly when it does in the reference. */
  lemma SameAnswer(s: System, e: Eager, d: nat, i: nat, j: nat)
    requires Inv(s) && WellFormedSystem(s) && Refines(s.dirs, ViewOf(s.machine), e)
    requires d in s.dirs && i in s.dirs[d] && j < ENTRIES
    ensures s.dirs[d][i] in ViewOf(s.machine) && ViewOf(s.machine)[s.dirs[d][i]][j] == ELook(e, d, i, j)
  {
    hide TableInv, DirectoriesOk, NothingLost, ELook;
    assert Look(s.dirs, ViewOf(s.machine), d, i, j) == ELook(e, d, i, j);
  }

  lemma WriteStep(s: System, e: Eager, op: Op)
    requires Inv(s) && WellFormedSystem(s) && op.OpWrite? && Enabled(s, op) && Refines(s.dirs, ViewOf(s.machine), e)
    ensures StepOk(s, e, op)
  {
    hide Accounting, Exclusive, SlotsOk, UserWrite, ViewOf, DirectoriesOk, NothingLost, Refines, EPut, ELook;
    var OpWrite(d, i, j, offset, value) := op;
    SameAnswer(s, e, d, i, j);
    var r := UserWriteKeeps(s.machine, s.dirs[d][i], j, offset, value);
    if r.ok {
      EntryChanged(s, r.machine, e, d, i, j, Some(Stored(ELook(e, d, i, j).value, offset, value)));
    }
  }

  lemma ForkStep(s: System, e: Eager, op: Op)
    requires Inv(s) && WellFormedSystem(s) && op.OpFork? && Enabled(s, op) && Refines(s.dirs, ViewOf(s.machine), e)
    ensures StepOk(s, e, op)
  {
    hide TableInv, CloneTables, ViewOf, CloneViews, Refines, DirectoriesOk, NothingLost, ClonedFrom, EFork, ForkCopies;
    var OpFork(d, child, base) := op;
    var f := ForkMachine(s, d, base);
    ForkSpaces(s.dirs, ViewOf(s.machine), s.machine.kernel, e, d, child, f.dir, base);
    assert f.machine.tables.Keys == ViewOf(f.machine).Keys;
  }

  /** What fork does to frames and tables. */
  lemma ForkMachine(s: System, d: nat, base: nat) returns (f: Forking)
    requires Inv(s) && WellFormedSystem(s) && d in s.dirs && AllBelow(s.machine.tables.Keys, base)
    requires |FreeFrames(s.machine)| >= ForkCopies(ViewOf(s.machine), s.dirs[KERNEL], s.dirs[d], ENTRIES)
    ensures f == CloneTables(s.machine, s.dirs[KERNEL], s.dirs[d], base, ENTRIES)
    ensures TableInv(f.machine) && f.machine.kernel == s.machine.kernel
    ensures ViewOf(f.machine) == CloneViews(ViewOf(s.machine), s.dirs[KERNEL], s.dirs[d], base, ENTRIES)
    ensures ClonedFrom(s.dirs, d, f.dir, base)
  {
    hide Accounting, Exclusive, SlotsOk, CloneTables, Unaliased, DirectoryOk, NothingLost, ForkCopies, CloneViews,
         Forkable, FreeFrames, ClonedFrom;
    ForkIsPossible(s.dirs, ViewOf(s.machine), s.machine.kernel, d, base);
    f := CloneTablesKeeps(s.machine, s.dirs[KERNEL], s.dirs[d], base, ENTRIES);
    ForkedDirectory(s, d, base, f);
  }

  /** What fork does to directories and views. */
  lemma ForkSpaces(
    dirs: map<nat, Directory>, v: View, kernel: set<nat>, e: Eager, d: nat, child: nat, dir: Directory, base: nat)
    requires DirectoriesOk(dirs, v.Keys, kernel) && NothingLost(dirs, v) && Refines(dirs, v, e)
    requires child !in dirs && ClonedFrom(dirs, d, dir, base)
    requires TablesIn(dirs[d], v.Keys) && AllBelow(v.Keys, base)
    ensures var dirs', w := dirs[child := dir], CloneViews(v, dirs[KERNEL], dirs[d], base, ENTRIES);
            DirectoriesOk(dirs', w.Keys, kernel) && NothingLost(dirs', w) && Refines(dirs', w, EFork(e, d, child))
  {
    hide CloneViews, Refines, Unaliased, NothingLost, DirectoryOk, Look, ELook;
    var w := CloneViews(v, dirs[KERNEL], dirs[d], base, ENTRIES);
    forall i <- dirs[d] ensures IsKernel(dirs[KERNEL], dirs[d], i) <==> i in dirs[KERNEL] {
      OwnOrKernel(dirs, v.Keys, kernel, d, i);
    }
    ForkLosesNothing(dirs, v, d, child, dir, base);
    ForkedViews(dirs, v, kernel, d, base);
    ForkDirectories(dirs, v, w, kernel, d, child, dir, base);
    ForkLooks(dirs, v, w, kernel, e, d, child, dir, base);
  }

  lemma ForkIsPossible(dirs: map<nat, Directory>, v: View, kernel: set<nat>, d: nat, base: nat)
    requires DirectoriesOk(dirs, v.Keys, kernel) && d in dirs && AllBelow(v.Keys, base)
    ensures Forkable(v, kernel, dirs[KERNEL], dirs[d], base)
  {
    assert DirectoryOk(dirs[KERNEL], dirs[d], v.Keys);
    assert DirectoryOk(dirs[KERNEL], dirs[KERNEL], v.Keys);
    forall i <- dirs[d] ensures IsKernel(dirs[KERNEL], dirs[d], i) <==> dirs[d][i] in kernel {
      OwnOrKernel(dirs, v.Keys, kernel, d, i);
    }
  }

  /** What the child's directory has at one index. */
  lemma ForkedEntry(s: System, d: nat, base: nat, f: Forking, i: nat)
    requires DirectoriesOk(s.dirs, s.machine.tables.Keys, s.machine.kernel) && WellFormedSystem(s) && d in s.dirs
    requires f == CloneTables(s.machine, s.dirs[KERNEL], s.dirs[d], base, ENTRIES)
    ensures i in f.dir <==> i in s.dirs[d]
    ensures i in f.dir ==> f.dir[i] == if i in s.dirs[KERNEL] then s.dirs[d][i] else base + i
  {
    hide CloneTables, Unaliased;
    assert DirectoryOk(s.dirs[KERNEL], s.dirs[d], s.machine.tables.Keys);
    ClonedDirectory(s.machine, s.dirs[KERNEL], s.dirs[d], base, ENTRIES, i);
    if i in s.dirs[d] { OwnOrKernel(s.dirs, s.machine.tables.Keys, s.machine.kernel, d, i); }
  }

  lemma ForkedDirectory(s: System, d: nat, base: nat, f: Forking)
    requires DirectoriesOk(s.dirs, s.machine.tables.Keys, s.machine.kernel) && WellFormedSystem(s) && d in s.dirs
    requires f == CloneTables(s.machine, s.dirs[KERNEL], s.dirs[d], base, ENTRIES)
    ensures ClonedFrom(s.dirs, d, f.dir, base)
  {
    hide CloneTables, DirectoriesOk;
    forall i: nat
      ensures i in f.dir <==> i in s.dirs[d]
      ensures i in f.dir ==> f.dir[i] == if i in s.dirs[KERNEL] then s.dirs[d][i] else base + i
    {
      ForkedEntry(s, d, base, f, i);
    }
  }

  lemma ForkedViews(dirs: map<nat, Directory>, v: View, kernel: set<nat>, d: nat, base: nat)
    requires DirectoriesOk(dirs, v.Keys, kernel) && d in dirs && TablesIn(dirs[d], v.Keys) && AllBelow(v.Keys, base)
    ensures var w := CloneViews(v, dirs[KERNEL], dirs[d], base, ENTRIES);
            && (forall t <- v :: w[t] == v[t])
            && (forall i <- dirs[d] ::
                  dirs[d][i] in v && (i !in dirs[KERNEL] ==> base + i in w && w[base + i] == v[dirs[d][i]]))
  {
    hide CloneViews;
    var w := CloneViews(v, dirs[KERNEL], dirs[d], base, ENTRIES);
    forall t <- v ensures w[t] == v[t] {
      CloneViewsOld(v, dirs[KERNEL], dirs[d], base, ENTRIES, t);
    }
    forall i <- dirs[d] | i !in dirs[KERNEL] ensures base + i in w && w[base + i] == v[dirs[d][i]] {
      assert DirectoryOk(dirs[KERNEL], dirs[d], v.Keys);
      CloneViewsNew(v, dirs[KERNEL], dirs[d], base, ENTRIES, i);
    }
  }

  lemma ExitStep(s: System, e: Eager, op: Op)
    requires Inv(s) && WellFormedSystem(s) && op.OpExit? && Enabled(s, op) && Refines(s.dirs, ViewOf(s.machine), e)
    ensures StepOk(s, e, op)
  {
    hide Accounting, Exclusive, SlotsOk, FreeTables, FreeViews, Look, ELook, Unaliased, DirectoryOk;
    var d := op.d;
    var v, kernel := ViewOf(s.machine), s.machine.kernel;
    forall i <- s.dirs[d] ensures IsKernel(s.dirs[KERNEL], s.dirs[d], i) <==> s.dirs[d][i] in kernel {
      OwnOrKernel(s.dirs, v.Keys, kernel, d, i);
    }
    var r := FreeTablesKeeps(s.machine, s.dirs[KERNEL], s.dirs[d], ENTRIES);
    assert r.tables.Keys == s.machine.tables.Keys;
    ExitDirectories(s.dirs, v.Keys, kernel, d);
    ExitLooks(s.dirs, v, kernel, e, d);
    ExitLosesNothing(s.dirs, v, kernel, d);
  }

  /** Every step keeps exact reference counting and is matched by the same step of the reference. */
  lemma Step(s: System, e: Eager, op: Op)
    requires Inv(s) && WellFormedSystem(s) && Enabled(s, op) && Refines(s.dirs, ViewOf(s.machine), e)
    ensures StepOk(s, e, op)
  {
    match op
    case OpMap(_, _, _, _, _, _) =>
      if op.i in s.dirs[op.d] { MapInTable(s, e, op); } else { MapInNewTable(s, e, op); }
    case OpUnmap(_, _, _) => UnmapStep(s, e, op);
    case OpWrite(_, _, _, _, _) => WriteStep(s, e, op);
    case OpFork(_, _, _) => ForkStep(s, e, op);
    case OpExit(_) => ExitStep(s, e, op);
  }

  /** Every call of the run is one its caller may make. */
  ghost predicate Legal(s: System, ops: seq<Op>)
    decreases |ops|
  {
    ops == [] || (WellFormedSystem(s) && Enabled(s, ops[0]) && Legal(Apply(s, ops[0]), ops[1..]))
  }

  ghost function Final(s: System, ops: seq<Op>): System
    requires Legal(s, ops)
    decreases |ops|
  {
    if ops == [] then s else Final(Apply(s, ops[0]), ops[1..])
  }

  /** Which stores of the run complete. */
  ghost function Answers(s: System, ops: seq<Op>): seq<bool>
    requires Legal(s, ops)
    decreases |ops|
  {
    if ops == [] then []
    else (if ops[0].OpWrite? then [Completes(s, ops[0])] else []) + Answers(Apply(s, ops[0]), ops[1..])
  }

  /** The reference, run beside the machine. */
  ghost function EFinal(s: System, e: Eager, ops: seq<Op>): Eager
    requires Legal(s, ops)
    decreases |ops|
  {
    if ops == [] then e
    else EFinal(Apply(s, ops[0]), EApply(e, ops[0], FirstContents(s)), ops[1..])
  }

  ghost function EAnswers(s: System, e: Eager, ops: seq<Op>): seq<bool>
    requires Legal(s, ops)
    decreases |ops|
  {
    if ops == [] then []
    else (if ops[0].OpWrite? then [ECompletes(e, ops[0])] else []) +
         EAnswers(Apply(s, ops[0]), EApply(e, ops[0], FirstContents(s)), ops[1..])
  }

  /**
   Copy-on-write refines copying: after any run, every address space finds at every address
   what the reference finds there, and every store has completed or failed alike.
   */
  lemma {:induction false} CowRefinesCopying(s: System, e: Eager, ops: seq<Op>)
    requires Inv(s) && Refines(s.dirs, ViewOf(s.machine), e) && Legal(s, ops)
    ensures Inv(Final(s, ops))
    ensures Refines(Final(s, ops).dirs, ViewOf(Final(s, ops).machine), EFinal(s, e, ops))
    ensures Answers(s, ops) == EAnswers(s, e, ops)
    decreases |ops|
  {
    if ops != [] {
      Step(s, e, ops[0]);
      CowRefinesCopying(Apply(s, ops[0]), EApply(e, ops[0], FirstContents(s)), ops[1..]);
    }
  }

  // ---- Every sound machine has a reference to compare with ----

  function PagesOf(v: View, dir: Directory, without: set<nat>): Pages
  {
    map i: nat, j: nat | i in dir && i !in without && dir[i] in v && 0 <= j < ENTRIES && v[dir[i]][j].Some? ::
      (i, j) := v[dir[i]][j].value
  }

  function Abstract(dirs: map<nat, Directory>, v: View): Eager
    requires KERNEL in dirs
  {
    Eager(dirs[KERNEL].Keys, PagesOf(v, dirs[KERNEL], {}), map d | d in dirs :: PagesOf(v, dirs[d], dirs[KERNEL].Keys))
  }

  lemma PagesOfAt(v: View, dir: Directory, without: set<nat>, i: nat, j: nat)
    ensures Get(PagesOf(v, dir, without), i, j) ==
            if i in dir && i !in without && dir[i] in v && j < ENTRIES then v[dir[i]][j] else None
  {
  }

  lemma AbstractRefines(s: System)
    requires Inv(s)
    ensures Refines(s.dirs, ViewOf(s.machine), Abstract(s.dirs, ViewOf(s.machine)))
  {
    var v := ViewOf(s.machine);
    var e := Abstract(s.dirs, v);
    hide TableInv, PagesOf, Unaliased, ViewOf;
    forall d: nat, i: nat, j: nat ensures Look(s.dirs, v, d, i, j) == ELook(e, d, i, j) {
      if d in s.dirs {
        assert DirectoryOk(s.dirs[KERNEL], s.dirs[d], s.machine.tables.Keys);
        PagesOfAt(v, s.dirs[KERNEL], {}, i, j);
        PagesOfAt(v, s.dirs[d], s.dirs[KERNEL].Keys, i, j);
      }
    }
  }

  // ---- No frame is lost ----

  /** Address space `d` maps frame `f` at page `j` of table `i`. */
  predicate MapsFrame(s: System, d: nat, i: nat, j: nat, f: nat)
  {
    && d in s.dirs && i in s.dirs[d] && HasSlot(s.machine, s.dirs[d][i], j)
    && s.machine.tables[s.dirs[d][i]][j].frame == f
  }

  ghost predicate HoldsFrame(s: System, t: nat, j: nat, f: nat)
  {
    HasSlot(s.machine, t, j) && Live(s.dirs, t) && s.machine.tables[t][j].frame == f
  }

  /** The entries that hold frame `f` in tables some address space can reach. */
  ghost function LiveHolders(s: System, f: nat): set<(nat, nat)>
  {
    set t: nat, j: nat | HoldsFrame(s, t, j, f) && t in s.machine.tables && 0 <= j < ENTRIES :: (t, j)
  }

  /** An entry that holds a frame is in a table that is still in use. */
  lemma HolderIsLive(s: System, t: nat, j: nat)
    requires Inv(s) && HasSlot(s.machine, t, j) && s.machine.tables[t][j].frame != 0
    ensures Live(s.dirs, t)
  {
    hide Accounting, Exclusive, Unaliased, DirectoryOk;
    if t in s.machine.kernel {
      var i :| i in s.dirs[KERNEL] && s.dirs[KERNEL][i] == t;
      assert HeldAt(s.dirs, KERNEL, i, t);
    } else {
      assert UserSlot(s.machine.tables[t][j]);
      assert ViewOf(s.machine)[t][j].Some?;
    }
  }

  lemma HoldersAreLive(s: System, f: nat)
    requires Inv(s) && 1 <= f
    ensures LiveHolders(s, f) == Holders(s.machine, f)
  {
    hide Inv;
    forall t: nat, j: nat | HasSlot(s.machine, t, j) && s.machine.tables[t][j].frame == f ensures Live(s.dirs, t) {
      HolderIsLive(s, t, j);
    }
  }

  lemma LiveIsMapped(s: System, f: nat)
    ensures LiveHolders(s, f) != {} <==> exists d: nat, i: nat, j: nat :: MapsFrame(s, d, i, j, f)
  {
    if LiveHolders(s, f) != {} {
      var t, j :| (t, j) in LiveHolders(s, f);
      var d, i :| HeldAt(s.dirs, d, i, t);
      assert MapsFrame(s, d, i, j, f);
    }
    if d: nat, i: nat, j: nat :| MapsFrame(s, d, i, j, f) {
      assert HeldAt(s.dirs, d, i, s.dirs[d][i]);
      assert (s.dirs[d][i], j) in LiveHolders(s, f);
    }
  }

  /**
   Exact frame accounting after any run: a frame is counted once for each entry that holds it in
   a table still reachable, and is in use exactly when some living address space maps it.
   */
  lemma FramesAccounted(s: System, ops: seq<Op>, f: nat)
    requires Inv(s) && Legal(s, ops) && 1 <= f < |Final(s, ops).machine.refs|
    ensures var r := Final(s, ops);
            && r.machine.refs[f] == |LiveHolders(r, f)|
            && (f in r.machine.used <==> exists d: nat, i: nat, j: nat :: MapsFrame(r, d, i, j, f))
  {
    hide LiveHolders;
    AbstractRefines(s);
    CowRefinesCopying(s, Abstract(s.dirs, ViewOf(s.machine)), ops);
    HoldersAreLive(Final(s, ops), f);
    LiveIsMapped(Final(s, ops), f);
  }

  /** Once every process has ended, the frames in use are the ones the kernel's own tables map. */
  lemma AllGivenBack(s: System, ops: seq<Op>, f: nat)
    requires Inv(s) && Legal(s, ops) && 1 <= f < |Final(s, ops).machine.refs|
    requires Final(s, ops).dirs.Keys == {KERNEL}
    ensures f in Final(s, ops).machine.used <==> exists i: nat, j: nat :: MapsFrame(Final(s, ops), KERNEL, i, j, f)
  {
    FramesAccounted(s, ops, f);
  }

  // ---- What it means for processes ----

  /** A call that works on address space `x` itself: maps, unmaps or writes one of its own pages, or ends it. */
  predicate Touches(kernelRange: set<nat>, op: Op, x: nat)
  {
    match op
    case OpMap(d, i, _, _, _, _) => d == x && i !in kernelRange
    case OpUnmap(d, i, _) => d == x && i !in kernelRange
    case OpWrite(d, i, _, _, _) => d == x && i !in kernelRange
    case OpFork(_, _, _) => false
    case OpExit(d) => d == x
  }

  /**
   Isolation: whatever other processes do, in particular a parent or child writing pages that
   were shared at fork, an address space keeps finding its own pages unchanged.
   */
  lemma {:induction false} Isolation(s: System, ops: seq<Op>, x: nat, i: nat, j: nat)
    requires Inv(s) && Legal(s, ops) && x in s.dirs && i !in s.dirs[KERNEL]
    requires forall k :: 0 <= k < |ops| ==> !Touches(s.dirs[KERNEL].Keys, ops[k], x)
    ensures WellFormed(Final(s, ops).machine)
    ensures Look(Final(s, ops).dirs, ViewOf(Final(s, ops).machine), x, i, j) == Look(s.dirs, ViewOf(s.machine), x, i, j)
    decreases |ops|
  {
    if ops != [] {
      IsolationStep(s, ops[0], x, i, j);
      var rest := ops[1..];
      assert forall k :: 0 <= k < |rest| ==> rest[k] == ops[k + 1];
      Isolation(Apply(s, ops[0]), rest, x, i, j);
    }
  }

  lemma IsolationStep(s: System, op: Op, x: nat, i: nat, j: nat)
    requires Inv(s) && WellFormedSystem(s) && Enabled(s, op) && x in s.dirs && i !in s.dirs[KERNEL]
    requires !Touches(s.dirs[KERNEL].Keys, op, x)
    ensures Inv(Apply(s, op)) && x in Apply(s, op).dirs && Apply(s, op).dirs[KERNEL] == s.dirs[KERNEL]
    ensures Look(Apply(s, op).dirs, ViewOf(Apply(s, op).machine), x, i, j) == Look(s.dirs, ViewOf(s.machine), x, i, j)
  {
    AbstractRefines(s);
    var e := Abstract(s.dirs, ViewOf(s.machine));
    hide TableInv, Abstract, ViewOf, EApply;
    Step(s, e, op);
    var e' := EApply(e, op, FirstContents(s));
    Untouched(e, op, FirstContents(s), x, i, j);
    assert Look(s.dirs, ViewOf(s.machine), x, i, j) == ELook(e, x, i, j);
    assert Look(Apply(s, op).dirs, ViewOf(Apply(s, op).machine), x, i, j) == ELook(e', x, i, j);
    KernelDirectoryFixed(s, op, x);
  }

  lemma KernelDirectoryFixed(s: System, op: Op, x: nat)
    requires WellFormedSystem(s) && Enabled(s, op) && x in s.dirs && !Touches(s.dirs[KERNEL].Keys, op, x)
    ensures x in Apply(s, op).dirs && KERNEL in Apply(s, op).dirs && Apply(s, op).dirs[KERNEL] == s.dirs[KERNEL]
  {
    hide AllocSlot, CloneTables, FreeTables, UserWrite, FrameFree;
  }

  /** In the reference a call that does not work on a space leaves its pages alone. */
  lemma Untouched(e: Eager, op: Op, first: Page, x: nat, i: nat, j: nat)
    requires x in e.spaces && i !in e.kernelRange && !Touches(e.kernelRange, op, x)
    requires op.OpFork? ==> op.child != x
    ensures ELook(EApply(e, op, first), x, i, j) == ELook(e, x, i, j)
  {
  }
}
